/** The sparse variable-length array: a radix tree of fixed fan-out that grows at the
    root.  Leaves hold the entries; a path that was never written reads as zero. */
module SparseArray {
  import opened Arithmetic
  import opened Options

  // ---------------------------------------------------------------------------
  // Digits
  // ---------------------------------------------------------------------------

  function Pow(base: nat, n: nat): (p: nat)
    requires base > 0
    ensures p > 0
  {
    if n == 0 then 1 else
      MulPositive(base, Pow(base, n - 1));
      base * Pow(base, n - 1)
  }

  lemma DigitParts(i: nat, p: nat, base: nat, q: nat, r: nat, u: nat, d: nat)
    requires i == q * p + r && r < p && q == u * base + d && d < base
    ensures i == u * (base * p) + (d * p + r)
    ensures d * p + r < base * p
  {
    Distribute(u * base, d, p);
    Associate(u, base, p);
    MulMonotone(d + 1, base, p);
    Distribute(d, 1, p);
  }

  /** The digit above a place, and what is below it, make up the longer remainder. */
  lemma DigitSplit(i: nat, p: nat, base: nat)
    requires p > 0 && base > 0
    ensures base * p > 0
    ensures i % (base * p) == (i / p) % base * p + i % p
  {
    MulPositive(base, p);
    var q, r := i / p, i % p;
    var u, d := q / base, q % base;
    DivMod(i, p);
    DivMod(q, base);
    DigitParts(i, p, base, q, r, u, d);
    DivUnique(i, base * p, u, d * p + r);
  }

  /** In a tree that is just high enough the topmost digit is the whole quotient. */
  lemma TopDigit(j: nat, p: nat, base: nat)
    requires p > 0 && base > 0 && j < base * p
    ensures j / p < base && (j / p) % base == j / p
    ensures j / p == 0 <==> j < p
  {
    var d := j / p;
    DivMod(j, p);
    if base <= d {
      MulMonotone(base, d, p);
    }
    if j < p {
      DivUnique(j, p, 0, j);
    }
    DivUnique(d, base, 0, d);
  }

  /** Two indices agree below `base * p` exactly when they agree in the digit and below `p`. */
  lemma SameDigits(i: nat, j: nat, p: nat, base: nat)
    requires p > 0 && base > 0
    ensures base * p > 0
    ensures i % (base * p) == j % (base * p) <==> (i / p) % base == (j / p) % base && i % p == j % p
  {
    DigitSplit(i, p, base);
    DigitSplit(j, p, base);
    var d, e := (i / p) % base, (j / p) % base;
    if i % (base * p) == j % (base * p) {
      DivUnique(d * p + i % p, p, d, i % p);
      DivUnique(e * p + j % p, p, e, j % p);
    }
  }

  // ---------------------------------------------------------------------------
  // The tree
  // ---------------------------------------------------------------------------

  /** A child slot: null, a leaf chunk, or a level node above height 0. */
  datatype Node<T> =
    | Missing
    | Chunk(entries: seq<T>)
    | Level(height: nat, slots: seq<Node<T>>)

  function Height<T>(node: Node<T>): nat {
    if node.Level? then node.height else 0
  }

  ghost predicate WellFormed<T>(node: Node<T>, h: nat, cs: nat)
    decreases h
  {
    match node
    case Missing => true
    case Chunk(entries) => h == 0 && |entries| == cs
    case Level(height, slots) =>
      && height == h > 0
      && |slots| == cs
      && forall k :: 0 <= k < cs ==> WellFormed(slots[k], h - 1, cs)
  }

  /** The downward walk: at each level the digit of the index picks the child. */
  function Resolve<T>(node: Node<T>, h: nat, cs: nat, i: nat): Option<T>
    requires cs > 0 && WellFormed(node, h, cs)
    decreases h
  {
    match node
    case Missing => None
    case Chunk(entries) => Some(entries[i % cs])
    case Level(_, slots) => Resolve(slots[(i / Pow(cs, h)) % cs], h - 1, cs, i)
  }

  function Read<T>(node: Node<T>, h: nat, cs: nat, i: nat, zero: T): T
    requires cs > 0 && WellFormed(node, h, cs)
  {
    var r := Resolve(node, h, cs, i);
    if r.Some? then r.value else zero
  }

  /** Installs what is missing on the path to `i` and writes the entry. */
  function Install<T>(node: Node<T>, h: nat, cs: nat, i: nat, value: T, zero: T): (r: Node<T>)
    requires cs > 0 && WellFormed(node, h, cs)
    ensures WellFormed(r, h, cs) && !r.Missing?
    decreases h
  {
    if h == 0 then
      var entries := if node.Chunk? then node.entries else seq(cs, _ => zero);
      Chunk(entries[i % cs := value])
    else
      var slots: seq<Node<T>> := if node.Level? then node.slots else seq(cs, _ => Missing);
      var d := (i / Pow(cs, h)) % cs;
      Level(h, slots[d := Install(slots[d], h - 1, cs, i, value, zero)])
  }

  /** Root promotion: the old root becomes child 0 of a new level. */
  function Promote<T>(root: Node<T>, h: nat, cs: nat): (r: Node<T>)
    requires cs > 0 && WellFormed(root, h, cs)
    ensures WellFormed(r, h + 1, cs)
  {
    Level(h + 1, [root] + seq(cs - 1, _ => Missing))
  }

  /** Writing one entry changes that entry and no other in range. */
  lemma {:induction false} ReadAfterInstall<T>(node: Node<T>, h: nat, cs: nat, i: nat, value: T, zero: T, j: nat)
    requires cs > 0 && WellFormed(node, h, cs)
    ensures Read(Install(node, h, cs, i, value, zero), h, cs, j, zero)
            == if i % Pow(cs, h + 1) == j % Pow(cs, h + 1) then value else Read(node, h, cs, j, zero)
    decreases h
  {
    if h == 0 {
      assert Pow(cs, 1) == cs;
    } else {
      var p := Pow(cs, h);
      assert Pow(cs, h + 1) == cs * p;
      SameDigits(i, j, p, cs);
      var slots: seq<Node<T>> := if node.Level? then node.slots else seq(cs, _ => Missing);
      var d, e := (i / p) % cs, (j / p) % cs;
      var r := Install(node, h, cs, i, value, zero);
      assert Resolve(r, h, cs, j) == Resolve(r.slots[e], h - 1, cs, j);
      assert Read(node, h, cs, j, zero) == Read(slots[e], h - 1, cs, j, zero);
      if d == e {
        ReadAfterInstall(slots[d], h - 1, cs, i, value, zero, j);
      }
    }
  }

  /** Promotion preserves every entry the old root could hold and adds only zeros. */
  lemma ReadAfterPromote<T>(root: Node<T>, h: nat, cs: nat, j: nat, zero: T)
    requires cs > 0 && WellFormed(root, h, cs) && j < Pow(cs, h + 2)
    ensures Read(Promote(root, h, cs), h + 1, cs, j, zero)
            == if j < Pow(cs, h + 1) then Read(root, h, cs, j, zero) else zero
  {
    var p := Pow(cs, h + 1);
    assert Pow(cs, h + 2) == cs * p;
    var d := j / p;
    TopDigit(j, p, cs);
    var r := Promote(root, h, cs);
    assert Resolve(r, h + 1, cs, j) == Resolve(r.slots[d], h, cs, j);
    if d > 0 {
      assert r.slots[d].Missing?;
    }
  }

  // ---------------------------------------------------------------------------
  // The array
  // ---------------------------------------------------------------------------

  /** A root together with the high-water mark: nothing is stored at or beyond it. */
  ghost predicate Sound<T>(root: Node<T>, count: nat, cs: nat, zero: T) {
    && cs > 1
    && !root.Missing?
    && WellFormed(root, Height(root), cs)
    && count <= Pow(cs, Height(root) + 1)
    && forall j :: count <= j < Pow(cs, Height(root) + 1) ==> Read(root, Height(root), cs, j, zero) == zero
  }

  /** The array's contents: zero wherever nothing was written. */
  ghost function Stored<T>(root: Node<T>, count: nat, cs: nat, zero: T, j: nat): T
    requires Sound(root, count, cs, zero)
  {
    if j < count then Read(root, Height(root), cs, j, zero) else zero
  }

  lemma PromoteKeepsStored<T>(root: Node<T>, count: nat, cs: nat, zero: T)
    requires Sound(root, count, cs, zero)
    ensures var r := Promote(root, Height(root), cs);
      && Height(r) == Height(root) + 1
      && Sound(r, count, cs, zero)
      && forall j: nat :: Stored(r, count, cs, zero, j) == Stored(root, count, cs, zero, j)
  {
    var h := Height(root);
    var r := Promote(root, h, cs);
    var up := Height(r);
    PowMonotone(cs, h + 1, up + 1);
    forall j: nat | count <= j < Pow(cs, up + 1) ensures Read(r, up, cs, j, zero) == zero {
      ReadAfterPromote(root, h, cs, j, zero);
    }
    forall j: nat | j < count ensures Read(r, up, cs, j, zero) == Read(root, h, cs, j, zero) {
      ReadAfterPromote(root, h, cs, j, zero);
    }
  }

  function Raised(count: nat, i: nat): nat {
    if i + 1 > count then i + 1 else count
  }

  lemma InstallStores<T>(root: Node<T>, count: nat, cs: nat, zero: T, i: nat, value: T)
    requires Sound(root, count, cs, zero) && i < Pow(cs, Height(root) + 1)
    ensures var r := Install(root, Height(root), cs, i, value, zero);
      var n := Raised(count, i);
      && Height(r) == Height(root)
      && Sound(r, n, cs, zero)
      && forall j: nat :: Stored(r, n, cs, zero, j) == if j == i then value else Stored(root, count, cs, zero, j)
  {
    var h := Height(root);
    var cap := Pow(cs, h + 1);
    var r := Install(root, h, cs, i, value, zero);
    var n := Raised(count, i);
    assert Height(r) == h;
    DivUnique(i, cap, 0, i);
    forall j: nat | n <= j < cap ensures Read(r, h, cs, j, zero) == zero {
      ReadAfterInstall(root, h, cs, i, value, zero, j);
      DivUnique(j, cap, 0, j);
    }
    forall j: nat | j < n
      ensures Read(r, h, cs, j, zero) == if j == i then value else Stored(root, count, cs, zero, j)
    {
      ReadAfterInstall(root, h, cs, i, value, zero, j);
      DivUnique(j, cap, 0, j);
    }
    assert Sound(r, n, cs, zero);
    forall j: nat ensures Stored(r, n, cs, zero, j) == if j == i then value else Stored(root, count, cs, zero, j) {
    }
  }

  class VarArray<T(==)> {
    const cs: nat
    const zero: T
    var root: Node<T>
    var count: nat

    ghost predicate Valid()
      reads this
    {
      Sound(root, count, cs, zero)
    }

    ghost function Content(j: nat): T
      reads this
      requires Valid()
    {
      Stored(root, count, cs, zero, j)
    }

    constructor (chunkSize: nat, z: T)
      requires chunkSize > 1
      ensures Valid() && count == 0 && zero == z && cs == chunkSize
      ensures forall j: nat :: Content(j) == z
    {
      cs, zero := chunkSize, z;
      root := Chunk(seq(chunkSize, _ => z));
      count := 0;
    }

    /** The height whose capacity first exceeds the index. */
    method NeededHeight(i: nat) returns (h: nat)
      requires Valid()
      ensures i < Pow(cs, h + 1)
      ensures h > 0 ==> Pow(cs, h) <= i
    {
      h := 0;
      var cap := cs;
      assert Pow(cs, 1) == cs;
      while i >= cap
        invariant cap == Pow(cs, h + 1)
        invariant h > 0 ==> Pow(cs, h) <= i
        decreases i - cap
      {
        MulMonotone(2, cs, cap);
        assert cs * cap == Pow(cs, h + 2);
        h := h + 1;
        cap := cap * cs;
      }
    }

    /** Writes one entry, promoting the root and installing the path as needed. */
    method Set(i: nat, value: T)
      requires Valid()
      modifies this
      ensures Valid()
      ensures count == Raised(old(count), i)
      ensures forall j: nat :: Content(j) == if j == i then value else old(Content(j))
    {
      var needed := NeededHeight(i);
      while Height(root) < needed
        invariant Valid()
        invariant count == old(count)
        invariant forall j: nat :: Content(j) == old(Content(j))
        decreases needed - Height(root)
      {
        PromoteKeepsStored(root, count, cs, zero);
        root := Promote(root, Height(root), cs);
      }
      PowMonotone(cs, needed + 1, Height(root) + 1);
      InstallStores(root, count, cs, zero, i, value);
      root := Install(root, Height(root), cs, i, value, zero);
      if i + 1 > count {
        count := i + 1;
      }
    }

    /** The slot pointer: null out of range or when the path is missing. */
    method Lookup(i: nat) returns (r: Option<T>)
      requires Valid()
      ensures r.Some? ==> r.value == Content(i)
      ensures r.None? ==> Content(i) == zero
    {
      if i >= count {
        return None;
      }
      var node, level := root, Height(root);
      var div := PowerOf(level);
      while level > 0
        invariant WellFormed(node, level, cs) && !node.Missing?
        invariant div == Pow(cs, level)
        invariant Resolve(root, Height(root), cs, i) == Resolve(node, level, cs, i)
        decreases level
      {
        node := node.slots[(i / div) % cs];
        if node.Missing? {
          return None;
        }
        PowDiv(cs, level);
        level, div := level - 1, div / cs;
      }
      r := Some(node.entries[i % cs]);
    }

    method PowerOf(h: nat) returns (div: nat)
      requires cs > 0
      ensures div == Pow(cs, h)
    {
      div := 1;
      for k := 0 to h
        invariant div == Pow(cs, k)
      {
        div := div * cs;
      }
    }
  }

  lemma PowDiv(cs: nat, h: nat)
    requires cs > 0 && h > 0
    ensures Pow(cs, h) / cs == Pow(cs, h - 1)
  {
    DivUnique(Pow(cs, h), cs, Pow(cs, h - 1), 0);
  }

  lemma {:induction false} PowMonotone(cs: nat, m: nat, n: nat)
    requires cs > 0 && m <= n
    ensures Pow(cs, m) <= Pow(cs, n)
    decreases n
  {
    if m < n {
      PowMonotone(cs, m, n - 1);
      MulMonotone(1, cs, Pow(cs, n - 1));
    }
  }
}
