/** The storage front end: page cache over lazy mirror over the backing file.  Whatever
    mix of writes, flushes and evictions happens, a page reads as last written. */
module Storage {
  import opened Arithmetic
  import opened Mirror
  import opened Options
  import opened PageCache

  /** The tail of the backing file: the next logical page and physical offset to hand out,
      and how many bytes a record takes. */
  datatype Tail = Tail(page: int, off: nat, size: nat)

  predicate HasMirror(d: Disk, off: nat) {
    off in d.headers && ModeOf(d, off).Later?
  }

  predicate Written(d: Disk, indir: Indirection, page: int) {
    Lookup(indir, page) in d.headers
  }

  /** Every page handed out has a whole record to itself, below the tail. */
  ghost predicate Spaced(indir: Indirection, tail: Tail) {
    && tail.size > 0
    && (forall p :: p in indir ==> indir[p] + tail.size <= tail.off)
    && (forall p, q :: p in indir && q in indir && p != q ==> Apart(indir[p], indir[q], tail.size))
  }

  lemma AdvanceKeepsSpaced(indir: Indirection, tail: Tail)
    requires Spaced(indir, tail) && tail.page !in indir
    ensures Spaced(indir[tail.page := tail.off], Advance(tail))
  {
  }

  /** Every page handed out has its own records: offsets are distinct and below the tail,
      mirror siblings belong to one page and to no user. */
  ghost predicate Sound(d: Disk, indir: Indirection, users: set<int>, tail: Tail) {
    && tail.page >= 0 && Spaced(indir, tail)
    && (forall p :: p in indir ==> 0 <= p < tail.page && 0 < indir[p] < tail.off)
    && (forall p, q :: p in indir && q in indir && p != q ==> indir[p] != indir[q])
    && (forall o :: o in d.headers ==> o < tail.off)
    && users <= indir.Keys
    && (forall p :: p in users && Written(d, indir, p) ==> Healthy(d, indir, indir[p]))
    && (forall p :: p in users && HasMirror(d, indir[p]) ==>
      d.headers[indir[p]].mirror in indir && d.headers[indir[p]].mirror !in users)
    && (forall p, q :: p in users && q in users && p != q && HasMirror(d, indir[p]) && HasMirror(d, indir[q]) ==>
          d.headers[indir[p]].mirror != d.headers[indir[q]].mirror)
  }

  function SpareOf(tail: Tail): Spare
  {
    Spare(tail.page, tail.off)
  }

  function DiskAfter(d: Disk, indir: Indirection, page: int, payload: Payload, tail: Tail): Disk
    requires page in indir && Writable(d, indir, indir[page])
  {
    ApplyAll(d, Plan(d, indir, page, indir[page], payload, SpareOf(tail)))
  }

  predicate AtLeast(a: Tail, b: Tail) {
    a.page >= b.page && a.off >= b.off && a.size == b.size
  }

  /** One page and one record further. */
  function Advance(tail: Tail): Tail {
    Tail(tail.page + 1, tail.off + tail.size, tail.size)
  }

  /** Page numbers and offsets may be skipped: the indirection table takes some for its own
      overflow pages. */
  lemma RaiseKeepsSound(d: Disk, indir: Indirection, users: set<int>, tail: Tail, at: Tail)
    requires Sound(d, indir, users, tail) && AtLeast(at, tail)
    ensures Sound(d, indir, users, at)
  {
  }

  lemma UserIsWritable(d: Disk, indir: Indirection, users: set<int>, tail: Tail, page: int)
    requires Sound(d, indir, users, tail) && page in users
    ensures page in indir && Writable(d, indir, indir[page]) && Usable(d, indir, indir[page], SpareOf(tail))
  {
  }

  lemma OtherUntouched(d: Disk, indir: Indirection, users: set<int>, tail: Tail, page: int, payload: Payload, q: int)
    requires Sound(d, indir, users, tail) && page in users && q in users && q != page
    ensures page in indir && Writable(d, indir, indir[page])
    ensures var d' := DiskAfter(d, indir, page, payload, tail);
      var indir' := IndirAfter(d, indir, indir[page], SpareOf(tail));
      && SameAt(d', d, indir[q])
      && indir'[q] == indir[q]
      && (Written(d, indir, q) ==>
        Healthy(d', indir', indir[q]) && Current(d', indir', indir[q]) == Current(d, indir, indir[q]))
  {
    hide Crc.Checksum, Spaced;
    UserIsWritable(d, indir, users, tail, page);
    var off, o := indir[page], indir[q];
    var spare := SpareOf(tail);
    var d' := DiskAfter(d, indir, page, payload, tail);
    var indir' := IndirAfter(d, indir, off, spare);
    assert !Touched(d, indir, off, spare, o) by {
      if ModeOf(d, off).Later? {
        assert HasMirror(d, off);
      }
    }
    WriteLeavesRest(d, indir, page, off, payload, spare, o);
    if Written(d, indir, q) {
      if ModeOf(d, o).Later? {
        var m := d.headers[o].mirror;
        assert HasMirror(d, o);
        assert !Touched(d, indir, off, spare, indir[m]);
        WriteLeavesRest(d, indir, page, off, payload, spare, indir[m]);
      }
      UntouchedPage(d', d, indir', indir, o);
    }
  }

  function TailAfter(d: Disk, off: nat, tail: Tail): Tail {
    if ModeOf(d, off).Second? then Advance(tail) else tail
  }

  lemma HeadersAfter(d: Disk, indir: Indirection, page: int, payload: Payload, tail: Tail)
    requires page in indir && Writable(d, indir, indir[page]) && Usable(d, indir, indir[page], SpareOf(tail))
    ensures var off := indir[page];
      var h := DiskAfter(d, indir, page, payload, tail).headers;
      && (ModeOf(d, off).First? ==>
        h.Keys == d.headers.Keys + {off} && h[off].mirror == NO_MIRROR && h[off].generation == 1)
      && (ModeOf(d, off).Second? ==> h.Keys == d.headers.Keys + {tail.off} && h[off].mirror == tail.page)
      && (ModeOf(d, off).Later? ==> h.Keys == d.headers.Keys && h[off].mirror == d.headers[off].mirror)
  {
    hide Crc.Checksum;
    var off, spare, crc := indir[page], SpareOf(tail), Crc.Checksum(payload);
    match ModeOf(d, off)
    case First => ApplyRecord(d, off, Header(crc, 1, NO_MIRROR), payload);
    case Second =>
      ApplyRecordLink(d, spare.off, Header(crc, d.headers[off].generation + 1, page), payload, off, spare.page);
    case Later =>
      var sib := Sibling(d, indir, off);
      var target := Target(d, off, sib);
      var gen := Max(d.headers[off].generation, d.headers[sib].generation) + 1;
      ApplyRecord(d, target, d.headers[target].(checksum := crc, generation := gen), payload);
  }

  lemma WriteKeepsSpaced(d: Disk, indir: Indirection, users: set<int>, tail: Tail, off: nat)
    requires Sound(d, indir, users, tail)
    ensures Spaced(IndirAfter(d, indir, off, SpareOf(tail)), TailAfter(d, off, tail))
  {
    assert tail.page !in indir;
    AdvanceKeepsSpaced(indir, tail);
  }

  /** A mirror write of one user's page keeps the whole backing file sound. */
  lemma WriteKeepsSound(d: Disk, indir: Indirection, users: set<int>, tail: Tail, page: int, payload: Payload)
    requires Sound(d, indir, users, tail) && page in users
    ensures page in indir && Writable(d, indir, indir[page])
    ensures var d' := DiskAfter(d, indir, page, payload, tail);
      var indir' := IndirAfter(d, indir, indir[page], SpareOf(tail));
      && Sound(d', indir', users, TailAfter(d, indir[page], tail))
      && Written(d', indir', page)
      && Healthy(d', indir', indir'[page]) && Current(d', indir', indir'[page]) == payload
  {
    hide Crc.Checksum, Spaced;
    UserIsWritable(d, indir, users, tail, page);
    var off, spare := indir[page], SpareOf(tail);
    WriteKeepsSpaced(d, indir, users, tail, off);
    var d' := DiskAfter(d, indir, page, payload, tail);
    var indir' := IndirAfter(d, indir, off, spare);
    WriteCompletes(d, indir, page, off, payload, spare);
    HeadersAfter(d, indir, page, payload, tail);
    forall q | q in users && q != page
      ensures SameAt(d', d, indir[q]) && indir'[q] == indir[q]
      ensures Written(d', indir', q) ==> Healthy(d', indir', indir'[q])
    {
      OtherUntouched(d, indir, users, tail, page, payload, q);
    }
    MirrorsStayApart(d, indir, users, tail, page, d', indir');
  }

  lemma MirrorsStayApart(d: Disk, indir: Indirection, users: set<int>, tail: Tail, page: int, d': Disk,
                         indir': Indirection)
    requires Sound(d, indir, users, tail) && page in users
    requires indir' == IndirAfter(d, indir, indir[page], SpareOf(tail))
    requires indir[page] in d'.headers
    requires ModeOf(d, indir[page]).First? ==>
      d'.headers[indir[page]].mirror == NO_MIRROR && d'.headers[indir[page]].generation == 1
    requires ModeOf(d, indir[page]).Second? ==> d'.headers[indir[page]].mirror == tail.page
    requires ModeOf(d, indir[page]).Later? ==> d'.headers[indir[page]].mirror == d.headers[indir[page]].mirror
    requires forall q :: q in users && q != page ==> SameAt(d', d, indir[q])
    ensures forall p :: p in users && HasMirror(d', indir'[p]) ==>
      d'.headers[indir'[p]].mirror in indir' && d'.headers[indir'[p]].mirror !in users
    ensures forall p, q ::
      p in users && q in users && p != q && HasMirror(d', indir'[p]) && HasMirror(d', indir'[q]) ==>
        d'.headers[indir'[p]].mirror != d'.headers[indir'[q]].mirror
  {
    hide Crc.Checksum, Healthy, Current, Spaced;
    forall p | p in users
      ensures indir'[p] == indir[p]
      ensures p != page && HasMirror(d', indir'[p]) ==>
        HasMirror(d, indir[p]) && d'.headers[indir[p]].mirror == d.headers[indir[p]].mirror
    {
      if p != page {
        assert SameAt(d', d, indir[p]);
      }
    }
  }

  // ---------------------------------------------------------------------------
  // The flat view
  // ---------------------------------------------------------------------------

  /** Cached pages belong to users, and a clean one repeats what is on disk. */
  ghost predicate Coherent(d: Disk, indir: Indirection, users: set<int>, entries: map<int, CacheEntry>) {
    forall p :: p in entries ==> p in users && (!entries[p].dirty ==> Clean(d, indir, p, entries[p].payload))
  }

  ghost predicate Clean(d: Disk, indir: Indirection, page: int, payload: Payload) {
    page in indir && Healthy(d, indir, indir[page]) && Current(d, indir, indir[page]) == payload
  }

  /** What a page reads as; nothing for a page never written. */
  ghost function PageView(d: Disk, indir: Indirection, entries: map<int, CacheEntry>, page: int): Option<Payload> {
    if page in entries then Some(entries[page].payload)
    else if page in indir && Healthy(d, indir, indir[page]) then Some(Current(d, indir, indir[page]))
    else None
  }

  /** The whole backend represents the flat map `view`. */
  ghost predicate Represents(d: Disk, indir: Indirection, users: set<int>, tail: Tail, entries: map<int, CacheEntry>,
                             view: map<int, Payload>) {
    && Sound(d, indir, users, tail)
    && Coherent(d, indir, users, entries)
    && view.Keys <= users
    && forall p :: p in users ==> PageView(d, indir, entries, p) == if p in view then Some(view[p]) else None
  }

  lemma RaiseKeepsView(d: Disk, indir: Indirection, users: set<int>, tail: Tail, entries: map<int, CacheEntry>,
                       view: map<int, Payload>, at: Tail)
    requires Represents(d, indir, users, tail, entries, view) && AtLeast(at, tail)
    ensures Represents(d, indir, users, at, entries, view)
  {
    hide Sound, Coherent, PageView;
    RaiseKeepsSound(d, indir, users, tail, at);
  }

  /** Writing a cached page back, and marking it clean, changes nothing a reader can see. */
  lemma FlushKeepsView(d: Disk, indir: Indirection, users: set<int>, tail: Tail, entries: map<int, CacheEntry>,
                       view: map<int, Payload>, page: int)
    requires Represents(d, indir, users, tail, entries, view) && page in entries
    ensures page in indir && Writable(d, indir, indir[page])
    ensures var d' := DiskAfter(d, indir, page, entries[page].payload, tail);
      var indir' := IndirAfter(d, indir, indir[page], SpareOf(tail));
      Represents(d', indir', users, TailAfter(d, indir[page], tail), Cleaned(entries, {page}), view)
  {
    hide Crc.Checksum, Spaced;
    WriteKeepsSound(d, indir, users, tail, page, entries[page].payload);
    var d' := DiskAfter(d, indir, page, entries[page].payload, tail);
    var indir' := IndirAfter(d, indir, indir[page], SpareOf(tail));
    var entries' := Cleaned(entries, {page});
    forall q | q in users
      ensures PageView(d', indir', entries', q) == PageView(d, indir, entries, q)
      ensures q in entries' && !entries'[q].dirty ==> Clean(d', indir', q, entries'[q].payload)
    {
      if q != page {
        OtherUntouched(d, indir, users, tail, page, entries[page].payload, q);
        if !Written(d, indir, q) {
          assert !Healthy(d', indir', indir'[q]);
        }
      }
    }
  }

  lemma HitIsView(d: Disk, indir: Indirection, users: set<int>, tail: Tail, entries: map<int, CacheEntry>,
                  view: map<int, Payload>, page: int)
    requires Represents(d, indir, users, tail, entries, view) && page in entries
    ensures page in view && view[page] == entries[page].payload
  {
    assert page in users;
    assert PageView(d, indir, entries, page) == Some(entries[page].payload);
  }

  /** What a read reports.  An allocated page without a record fails with an I/O or a
      checksum error, depending on how far the file reaches. */
  datatype ReadStatus = Found(payload: Payload) | NotFound | Unwritten | CrcFailed

  /** A read of an allocated page in the flat map. */
  function FlatRead(view: map<int, Payload>, page: int): ReadStatus {
    if page in view then Found(view[page]) else Unwritten
  }

  lemma KeysAreUsers(d: Disk, indir: Indirection, users: set<int>, tail: Tail, entries: map<int, CacheEntry>,
                     view: map<int, Payload>, page: int)
    requires Represents(d, indir, users, tail, entries, view)
    ensures page in view || page in entries ==> page in users
    ensures page in users ==> Lookup(indir, page) != 0
  {
    if page in users {
      assert page in indir;
    }
  }

  /** A miss filled from disk, a write into the cache, an emptied clean cache. */
  lemma FillKeepsView(d: Disk, indir: Indirection, users: set<int>, tail: Tail, entries: map<int, CacheEntry>,
                      view: map<int, Payload>, page: int)
    requires Represents(d, indir, users, tail, entries, view) && page in users && page !in entries
    ensures page in indir
    ensures Mirror.Read(d, indir, indir[page]) == (if page in view then Ok(view[page]) else NoRecord)
    ensures page in view ==>
      Represents(d, indir, users, tail, entries[page := CacheEntry(page, view[page], 0, false)], view)
  {
    if Written(d, indir, page) {
      ReadHealthy(d, indir, indir[page]);
    }
    if page in view {
      var entries' := entries[page := CacheEntry(page, view[page], 0, false)];
      forall q | q in users ensures PageView(d, indir, entries', q) == PageView(d, indir, entries, q) {
      }
    }
  }

  lemma WriteUpdatesView(d: Disk, indir: Indirection, users: set<int>, tail: Tail, entries: map<int, CacheEntry>,
                         view: map<int, Payload>, page: int, payload: Payload, priority: nat)
    requires Represents(d, indir, users, tail, entries, view) && page in users
    ensures Represents(d, indir, users, tail, entries[page := CacheEntry(page, payload, priority, true)],
                       view[page := payload])
  {
    var entries' := entries[page := CacheEntry(page, payload, priority, true)];
    forall q | q in users && q != page ensures PageView(d, indir, entries', q) == PageView(d, indir, entries, q) {
    }
  }

  /** What the backing file alone holds. */
  ghost function DiskView(d: Disk, indir: Indirection, users: set<int>): map<int, Payload>
    requires users <= indir.Keys
  {
    map p | p in users && Healthy(d, indir, indir[p]) :: Current(d, indir, indir[p])
  }

  ghost predicate SameFor(v: map<int, Payload>, w: map<int, Payload>, page: int) {
    (page in v <==> page in w) && (page in v ==> v[page] == w[page])
  }

  /** Dropping the cache leaves the file's own view: a page changes only if it was dirty. */
  lemma DropShowsDisk(d: Disk, indir: Indirection, users: set<int>, tail: Tail, entries: map<int, CacheEntry>,
                      view: map<int, Payload>)
    requires Represents(d, indir, users, tail, entries, view)
    ensures users <= indir.Keys
    ensures Represents(d, indir, users, tail, map[], DiskView(d, indir, users))
    ensures forall p :: p in users && (p in entries ==> !entries[p].dirty) ==>
      SameFor(DiskView(d, indir, users), view, p)
  {
    hide Sound;
    assert users <= indir.Keys by {
      SoundUsers(d, indir, users, tail);
    }
    forall p | p in users && (p in entries ==> !entries[p].dirty)
      ensures SameFor(DiskView(d, indir, users), view, p)
    {
      assert PageView(d, indir, map[], p) == PageView(d, indir, entries, p);
    }
  }

  lemma SoundUsers(d: Disk, indir: Indirection, users: set<int>, tail: Tail)
    requires Sound(d, indir, users, tail)
    ensures users <= indir.Keys
  {
  }

  lemma CachedIsAllocated(d: Disk, indir: Indirection, users: set<int>, tail: Tail, entries: map<int, CacheEntry>,
                          view: map<int, Payload>)
    requires Represents(d, indir, users, tail, entries, view)
    ensures forall p :: p in entries ==> p in users
    ensures forall p :: p in entries ==> Lookup(indir, p) != 0
  {
    forall p | p in entries ensures p in users && Lookup(indir, p) != 0 {
      assert p in users && p in indir;
    }
  }

  lemma AllocateKeepsView(d: Disk, indir: Indirection, users: set<int>, tail: Tail, entries: map<int, CacheEntry>,
                          view: map<int, Payload>)
    requires Represents(d, indir, users, tail, entries, view) && tail.off > 0
    ensures tail.page !in users && tail.page !in view
    ensures Represents(d, indir[tail.page := tail.off], users + {tail.page}, Advance(tail), entries, view)
  {
    AllocateKeepsSound(d, indir, users, tail);
    assert tail.page !in indir && tail.off !in d.headers;
    var indir' := indir[tail.page := tail.off];
    forall q | q in users
      ensures PageView(d, indir', entries, q) == PageView(d, indir, entries, q)
      ensures forall p :: Clean(d, indir, q, p) ==> Clean(d, indir', q, p)
    {
      AllocateLeavesPage(d, indir, users, tail, q);
    }
  }

  /** A new page at the tail leaves every written page as it was. */
  lemma AllocateLeavesPage(d: Disk, indir: Indirection, users: set<int>, tail: Tail, q: int)
    requires Sound(d, indir, users, tail) && q in users
    ensures tail.page !in indir && q in indir
    ensures var indir' := indir[tail.page := tail.off];
      && indir'[q] == indir[q]
      && (Healthy(d, indir', indir[q]) <==> Healthy(d, indir, indir[q]))
      && (Healthy(d, indir, indir[q]) ==> Current(d, indir', indir[q]) == Current(d, indir, indir[q]))
  {
    if Written(d, indir, q) {
      UntouchedPage(d, d, indir[tail.page := tail.off], indir, indir[q]);
    }
  }

  lemma AllocateKeepsSound(d: Disk, indir: Indirection, users: set<int>, tail: Tail)
    requires Sound(d, indir, users, tail) && tail.off > 0
    ensures Sound(d, indir[tail.page := tail.off], users + {tail.page}, Advance(tail))
  {
    AdvanceKeepsSpaced(indir, tail);
    hide Spaced;
    var indir' := indir[tail.page := tail.off];
    assert tail.page !in indir && tail.off !in d.headers;
    forall q | q in users
      ensures indir'[q] == indir[q]
      ensures Written(d, indir', q) ==> Healthy(d, indir', indir'[q])
    {
      AllocateLeavesPage(d, indir, users, tail, q);
    }
    assert !HasMirror(d, indir'[tail.page]);
  }

  // ---------------------------------------------------------------------------
  // The backend
  // ---------------------------------------------------------------------------

  class Backend {
    const recordSize: nat
    const cache: Cache
    var disk: Disk
    var indir: Indirection
    var tail: Tail
    ghost var users: set<int>
    ghost var view: map<int, Payload>

    ghost predicate Valid()
      reads this, cache
    {
      && tail.size == recordSize && tail.off > 0
      && cache.Valid()
      && Represents(disk, indir, users, tail, cache.entries, view)
    }

    /** A fresh file: the first two records are the header page and the superblock. */
    constructor (size: nat, hash: int -> nat, bucketCount: nat)
      requires size > 0 && bucketCount > 0
      ensures Valid() && fresh(cache) && users == {} && view == map[]
    {
      recordSize := size;
      cache := new Cache(hash, bucketCount);
      disk := Disk(map[], map[]);
      indir := map[];
      tail := Tail(2, 2 * size, size);
      users, view := {}, map[];
    }

    /** Any number and any offset not below the tail: which ones is up to the indirection
        table, whose growth may take some for itself. */
    method NextFree() returns (at: Tail)
      ensures AtLeast(at, tail)
    {
      var pages: nat, bytes: nat := *, *;
      at := Tail(tail.page + pages, tail.off + bytes, tail.size);
    }

    /** Tail-advance allocation. */
    method Allocate() returns (page: int)
      requires Valid()
      modifies this
      ensures Valid()
      ensures page !in old(users) && users == old(users) + {page}
      ensures view == old(view) && page !in view
    {
      hide Represents, Cache.Valid;
      var at := NextFree();
      RaiseKeepsView(disk, indir, users, tail, cache.entries, view, at);
      tail := at;
      page := tail.page;
      AllocateKeepsView(disk, indir, users, tail, cache.entries, view);
      indir := indir[page := tail.off];
      tail := Tail(tail.page + 1, tail.off + recordSize, recordSize);
      users := users + {page};
    }

    /** The mirror read, pread by pread. */
    method MirrorRead(page: int) returns (r: ReadResult)
      ensures r == Mirror.Read(disk, indir, Lookup(indir, page))
    {
      var off := Lookup(indir, page);
      if off !in disk.headers {
        return NoRecord;
      }
      var ph := disk.headers[off];
      var sib := Lookup(indir, ph.mirror);
      if ph.mirror == NO_MIRROR || sib == 0 || sib !in disk.headers {
        if off !in disk.payloads {
          return NoRecord;
        }
        return if Crc.Checksum(disk.payloads[off]) != ph.checksum then CrcError else Ok(disk.payloads[off]);
      }
      var active, other := off, sib;
      if disk.headers[sib].generation > ph.generation {
        active, other := sib, off;
      }
      if active in disk.payloads && Crc.Checksum(disk.payloads[active]) == disk.headers[active].checksum {
        return Ok(disk.payloads[active]);
      }
      if other in disk.payloads && Crc.Checksum(disk.payloads[other]) == disk.headers[other].checksum {
        return Ok(disk.payloads[other]);
      }
      return CrcError;
    }

    /** The mirror write, pwrite by pwrite: exactly the planned list, in order. */
    method MirrorWrite(page: int, payload: Payload) returns (ghost at: Tail)
      requires tail.size == recordSize && Sound(disk, indir, users, tail) && page in users
      modifies this`disk, this`indir, this`tail
      ensures old(page in indir && Writable(disk, indir, indir[page])) && AtLeast(at, old(tail))
      ensures disk == DiskAfter(old(disk), old(indir), page, payload, at)
      ensures indir == IndirAfter(old(disk), old(indir), old(indir)[page], SpareOf(at))
      ensures tail == TailAfter(old(disk), old(indir)[page], at)
    {
      hide Crc.Checksum, Spaced;
      at := tail;
      UserIsWritable(disk, indir, users, tail, page);
      var off := indir[page];
      var crc := Crc.Checksum(payload);
      ghost var d := disk;
      var ph := if off in disk.headers then disk.headers[off] else Header(0, 0, NO_MIRROR);
      if ph.generation == 0 {
        ph := Header(crc, 1, NO_MIRROR);
        disk := Apply(disk, PutHeader(off, ph));
        disk := Apply(disk, PutPayload(off, payload));
        ApplyShort(d, PutHeader(off, ph), PutPayload(off, payload), PutLink(off, 0));
      } else if ph.mirror == NO_MIRROR {
        var free := NextFree();
        RaiseKeepsSound(disk, indir, users, tail, free);
        UserIsWritable(disk, indir, users, free, page);
        at, tail := free, free;
        var sib, sibOff := tail.page, tail.off;
        indir := indir[sib := sibOff];
        tail := Tail(tail.page + 1, tail.off + recordSize, recordSize);
        var phSib := Header(crc, ph.generation + 1, page);
        disk := Apply(disk, PutHeader(sibOff, phSib));
        disk := Apply(disk, PutPayload(sibOff, payload));
        disk := Apply(disk, PutLink(off, sib));
        ApplyShort(d, PutHeader(sibOff, phSib), PutPayload(sibOff, payload), PutLink(off, sib));
        assert Record(sibOff, phSib, payload) + [PutLink(off, sib)]
            == [PutHeader(sibOff, phSib), PutPayload(sibOff, payload), PutLink(off, sib)];
      } else {
        var sibOff := Lookup(indir, ph.mirror);
        var phSib := disk.headers[sibOff];
        var target, targetHeader := sibOff, phSib;
        if ph.generation <= phSib.generation {
          target, targetHeader := off, ph;
        }
        var gen := (if ph.generation > phSib.generation then ph.generation else phSib.generation) + 1;
        targetHeader := targetHeader.(checksum := crc, generation := gen);
        disk := Apply(disk, PutHeader(target, targetHeader));
        disk := Apply(disk, PutPayload(target, payload));
        ApplyShort(d, PutHeader(target, targetHeader), PutPayload(target, payload), PutLink(target, 0));
      }
    }

    /** Cache hit, else mirror read and a clean insert; a page not allocated is not found. */
    method Read(page: int) returns (r: ReadStatus)
      requires Valid() && (page in users || page !in indir)
      modifies cache
      ensures Valid()
      ensures r == if page in users then FlatRead(view, page) else NotFound
      ensures Flushable(old(cache.entries)) ==> Flushable(cache.entries)
    {
      hide Represents, Cache.Valid, Mirror.Read, Flushable;
      var hit := cache.Find(page);
      KeysAreUsers(disk, indir, users, tail, cache.entries, view, page);
      if hit.Some? {
        HitIsView(disk, indir, users, tail, cache.entries, view, page);
        return Found(hit.value.payload);
      }
      if Lookup(indir, page) == 0 {
        return NotFound;
      }
      FillKeepsView(disk, indir, users, tail, cache.entries, view, page);
      var got := MirrorRead(page);
      if page in view && Flushable(cache.entries) {
        FlushableAfterWrite(cache.entries, CacheEntry(page, view[page], 0, false));
      }
      if !got.Ok? {
        return if got.CrcError? then CrcFailed else Unwritten;
      }
      cache.Insert(page, got.payload, 0, false);
      r := Found(got.payload);
    }

    /** Cache only: no disk access. */
    method Write(page: int, payload: Payload, priority: nat)
      requires Valid() && page in users
      modifies this`view, cache
      ensures Valid()
      ensures view == old(view)[page := payload]
      ensures cache.entries == old(cache.entries)[page := CacheEntry(page, payload, priority, true)]
    {
      hide Represents, Cache.Valid;
      WriteUpdatesView(disk, indir, users, tail, cache.entries, view, page, payload, priority);
      cache.Insert(page, payload, priority, true);
      view := view[page := payload];
    }

    /** Writes one cached dirty page back. */
    method FlushPage(page: int)
      requires Valid() && page in users
      modifies this`disk, this`indir, this`tail, cache
      ensures Valid()
      ensures cache.entries == Cleaned(old(cache.entries), {page})
    {
      CleanedOne(cache.entries, page);
      var found := cache.Find(page);
      if found.None? || !found.value.dirty {
        return;
      }
      if Lookup(indir, page) != 0 {
        WriteBack(page, found.value.payload);
        cache.MarkClean(page);
      }
    }

    method WriteBack(page: int, payload: Payload)
      requires tail.size == recordSize && tail.off > 0
      requires Represents(disk, indir, users, tail, cache.entries, view)
      requires page in cache.entries && cache.entries[page].payload == payload
      modifies this`disk, this`indir, this`tail
      ensures tail.size == recordSize && tail.off > 0
      ensures Represents(disk, indir, users, tail, Cleaned(cache.entries, {page}), view)
    {
      hide DiskAfter, IndirAfter, Cleaned;
      ghost var d, i, t := disk, indir, tail;
      KeysAreUsers(d, i, users, t, cache.entries, view, page);
      ghost var at := MirrorWrite(page, payload);
      RaiseKeepsView(d, i, users, t, cache.entries, view, at);
      FlushKeepsView(d, i, users, at, cache.entries, view, page);
    }

    /** Four rounds, data pages first and the superblock last; each round first collects
        its dirty pages, then writes them back one by one. */
    method FlushAll()
      requires Valid()
      modifies this`disk, this`indir, this`tail, cache
      ensures Valid()
      ensures cache.entries == Cleaned(old(cache.entries), OfPriorityBelow(old(cache.entries), 4))
    {
      hide Represents, Cleaned, Cache.Valid;
      ghost var before := cache.entries;
      CleanedNone(before);
      for prio := 0 to 4
        invariant Valid()
        invariant cache.entries == Cleaned(before, OfPriorityBelow(before, prio))
      {
        CleanedRound(before, prio);
        FlushRound(prio);
      }
    }

    method FlushRound(prio: nat)
      requires Valid()
      modifies this`disk, this`indir, this`tail, cache
      ensures Valid()
      ensures cache.entries == Cleaned(old(cache.entries), OfPriority(old(cache.entries), prio))
    {
      hide Represents, Cleaned, Cache.Valid;
      ghost var before := cache.entries;
      ghost var done := {};
      var pages := cache.CollectDirty(prio, indir);
      CleanedNone(before);
      CachedIsAllocated(disk, indir, users, tail, before, view);
      ghost var due := ToSet(pages);
      forall p | p in due ensures p in before && before[p].priority == prio {
        assert p in pages;
      }
      forall p | p in before && before[p].dirty && before[p].priority == prio ensures p in due {
        assert Lookup(indir, p) != 0;
        assert p in pages;
      }
      for i := 0 to |pages|
        invariant Valid()
        invariant cache.entries == Cleaned(before, done)
        invariant done + ToSet(pages[i..]) == due
      {
        ToSetHead(pages, i);
        FlushPage(pages[i]);
        CleanedTwice(before, done, {pages[i]});
        done := done + {pages[i]};
      }
      CleanedSame(before, done, OfPriority(before, prio));
    }

    /** Flush, then drop everything.  The only pages that can change are dirty ones whose
        priority is beyond the four the flush knows: they fall back to what is on disk. */
    method EvictAll()
      requires Valid()
      modifies this`disk, this`indir, this`tail, this`view, cache
      ensures Valid() && cache.entries == map[]
      ensures forall p :: p in users && !Unflushable(old(cache.entries), p) ==> SameFor(view, old(view), p)
    {
      hide Represents, Cache.Valid;
      FlushAll();
      DropShowsDisk(disk, indir, users, tail, cache.entries, view);
      cache.Clear();
      view := DiskView(disk, indir, users);
    }
  }

  ghost predicate Flushable(m: map<int, CacheEntry>) {
    forall p :: !Unflushable(m, p)
  }

  lemma FlushableAfterWrite(m: map<int, CacheEntry>, e: CacheEntry)
    requires Flushable(m) && e.priority < 4
    ensures Flushable(m[e.page := e])
  {
    var m' := m[e.page := e];
    forall p ensures !Unflushable(m', p) {
      assert !Unflushable(m, p);
    }
  }

  lemma FlushableAfterClean(m: map<int, CacheEntry>, pages: set<int>)
    requires Flushable(m)
    ensures Flushable(Cleaned(m, pages))
  {
    forall p ensures !Unflushable(Cleaned(m, pages), p) {
      assert !Unflushable(m, p);
    }
  }

  ghost predicate Unflushable(m: map<int, CacheEntry>, page: int) {
    page in m && m[page].dirty && m[page].priority >= 4
  }

  ghost function Cleaned(m: map<int, CacheEntry>, pages: set<int>): (r: map<int, CacheEntry>)
    ensures r.Keys == m.Keys
  {
    map p | p in m :: if p in pages then m[p].(dirty := false) else m[p]
  }

  ghost function ToSet(pages: seq<int>): (r: set<int>)
    ensures forall p :: p in r <==> p in pages
  {
    if pages == [] then {} else {pages[0]} + ToSet(pages[1..])
  }

  lemma ToSetHead(pages: seq<int>, i: nat)
    requires i < |pages|
    ensures ToSet(pages[i..]) == {pages[i]} + ToSet(pages[i + 1..])
  {
    assert pages[i..][1..] == pages[i + 1..];
  }

  ghost function OfPriority(m: map<int, CacheEntry>, prio: nat): set<int> {
    set p | p in m && m[p].priority == prio
  }

  ghost function OfPriorityBelow(m: map<int, CacheEntry>, prio: nat): set<int> {
    set p | p in m && m[p].priority < prio
  }

  lemma CleanedTwice(m: map<int, CacheEntry>, a: set<int>, b: set<int>)
    ensures Cleaned(Cleaned(m, a), b) == Cleaned(m, a + b)
  {
  }

  lemma CleanedOne(m: map<int, CacheEntry>, page: int)
    ensures page in m ==> Cleaned(m, {page}) == m[page := m[page].(dirty := false)]
    ensures page !in m || !m[page].dirty ==> Cleaned(m, {page}) == m
  {
  }

  lemma CleanedNone(m: map<int, CacheEntry>)
    ensures Cleaned(m, {}) == m
    ensures Cleaned(m, OfPriorityBelow(m, 0)) == m
  {
  }

  lemma CleanedSame(m: map<int, CacheEntry>, a: set<int>, b: set<int>)
    requires forall p :: p in m && (p in a) != (p in b) ==> !m[p].dirty
    ensures Cleaned(m, a) == Cleaned(m, b)
  {
    forall p | p in m ensures Cleaned(m, a)[p] == Cleaned(m, b)[p] {
      if (p in a) != (p in b) {
        assert m[p].(dirty := false) == m[p];
      }
    }
  }

  lemma CleanedRound(m: map<int, CacheEntry>, prio: nat)
    ensures var sofar := Cleaned(m, OfPriorityBelow(m, prio));
      Cleaned(sofar, OfPriority(sofar, prio)) == Cleaned(m, OfPriorityBelow(m, prio + 1))
  {
    assert OfPriority(Cleaned(m, OfPriorityBelow(m, prio)), prio) == OfPriority(m, prio);
    assert OfPriorityBelow(m, prio + 1) == OfPriorityBelow(m, prio) + OfPriority(m, prio);
    CleanedTwice(m, OfPriorityBelow(m, prio), OfPriority(m, prio));
  }

  // ---------------------------------------------------------------------------
  // Runs
  // ---------------------------------------------------------------------------

  /** What a client may do, with the priorities the flush knows.  Pages are named by the
      order in which the client got them. */
  datatype Op =
    | AllocateOp
    | WriteOp(nth: nat, payload: Payload, priority: nat)
    | ReadOp(nth: nat)
    | FlushOp(nth: nat)
    | FlushAllOp
    | EvictAllOp

  /** How many pages the client has after `ops`, starting with `n`. */
  function PagesAfter(n: nat, ops: seq<Op>): nat {
    if ops == [] then n
    else PagesAfter(n, ops[..|ops| - 1]) + (if ops[|ops| - 1].AllocateOp? then 1 else 0)
  }

  predicate Legal(op: Op, n: nat) {
    match op
    case WriteOp(nth, _, priority) => nth < n && priority < 4
    case ReadOp(nth) => nth < n
    case FlushOp(nth) => nth < n
    case _ => true
  }

  /** Every operation names a page the client has by then. */
  predicate LegalRun(n: nat, ops: seq<Op>) {
    ops == [] || (LegalRun(n, ops[..|ops| - 1]) && Legal(ops[|ops| - 1], PagesAfter(n, ops[..|ops| - 1])))
  }

  /** The flat page map: only writes count, and each replaces its page. */
  function FlatMap(view: map<int, Payload>, pages: seq<int>, ops: seq<Op>): map<int, Payload> {
    if ops == [] then view
    else
      var last := ops[|ops| - 1];
      var v := FlatMap(view, pages, ops[..|ops| - 1]);
      if last.WriteOp? && last.nth < |pages| then v[pages[last.nth] := last.payload] else v
  }

  /** What the reads among the operations return on the flat map, in order. */
  function FlatReads(view: map<int, Payload>, pages: seq<int>, ops: seq<Op>): seq<ReadStatus> {
    if ops == [] then []
    else
      var last, front := ops[|ops| - 1], ops[..|ops| - 1];
      FlatReads(view, pages, front) +
      (if last.ReadOp? && last.nth < |pages| then [FlatRead(FlatMap(view, pages, front), pages[last.nth])] else [])
  }

  /** Pages the client gets later do not matter to what it did before. */
  lemma {:induction false} LaterPages(view: map<int, Payload>, n: nat, pages: seq<int>, page: int, ops: seq<Op>)
    requires LegalRun(n, ops) && PagesAfter(n, ops) <= |pages|
    ensures FlatMap(view, pages + [page], ops) == FlatMap(view, pages, ops)
    ensures FlatReads(view, pages + [page], ops) == FlatReads(view, pages, ops)
  {
    if ops != [] {
      LaterPages(view, n, pages, page, ops[..|ops| - 1]);
    }
  }

  lemma {:induction false} LegalPrefix(n: nat, ops: seq<Op>, k: nat)
    requires LegalRun(n, ops) && k <= |ops|
    ensures LegalRun(n, ops[..k])
    ensures k < |ops| ==> Legal(ops[k], PagesAfter(n, ops[..k]))
    decreases |ops|
  {
    if k == |ops| {
      assert ops[..k] == ops;
    } else {
      var front := ops[..|ops| - 1];
      assert front[..k] == ops[..k];
      LegalPrefix(n, front, k);
    }
  }

  ghost predicate Owned(b: Backend, pages: seq<int>)
    reads b
  {
    forall i :: 0 <= i < |pages| ==> pages[i] in b.users
  }

  /** One operation on the backend. */
  method Perform(b: Backend, op: Op, pages: seq<int>) returns (pages': seq<int>, results: seq<ReadStatus>)
    requires b.Valid() && Flushable(b.cache.entries) && Legal(op, |pages|) && Owned(b, pages)
    modifies b, b.cache
    ensures b.Valid() && Flushable(b.cache.entries) && Owned(b, pages')
    ensures if op.AllocateOp? then |pages'| == |pages| + 1 && pages <= pages' && pages'[|pages|] !in pages
            else pages' == pages
    ensures b.view == if op.WriteOp? then old(b.view)[pages[op.nth] := op.payload] else old(b.view)
    ensures results == if op.ReadOp? then [FlatRead(old(b.view), pages[op.nth])] else []
  {
    hide Represents, Cache.Valid, Cleaned, SameFor, Flushable;
    ghost var cached, before, users := b.cache.entries, b.view, b.users;
    pages', results := pages, [];
    match op
    case AllocateOp =>
      var page := b.Allocate();
      pages' := pages + [page];
    case WriteOp(nth, payload, priority) =>
      FlushableAfterWrite(cached, CacheEntry(pages[nth], payload, priority, true));
      b.Write(pages[nth], payload, priority);
    case ReadOp(nth) =>
      var r := b.Read(pages[nth]);
      results := [r];
    case FlushOp(nth) =>
      FlushableAfterClean(cached, {pages[nth]});
      b.FlushPage(pages[nth]);
    case FlushAllOp =>
      FlushableAfterClean(cached, OfPriorityBelow(cached, 4));
      b.FlushAll();
    case EvictAllOp =>
      ViewInUsers(b);
      b.EvictAll();
      ViewInUsers(b);
      FlushableEmpty();
      forall p | p in users ensures SameFor(b.view, before, p) {
        AllFlushable(cached, p);
      }
      SameEverywhere(b.view, before, users);
  }

  lemma FlushableEmpty()
    ensures Flushable(map[])
  {
  }

  lemma AllFlushable(m: map<int, CacheEntry>, p: int)
    requires Flushable(m)
    ensures !Unflushable(m, p)
  {
  }

  /** Running any list of operations on the backend keeps it in step with the flat map, and
      every read on the way returns what the flat map holds at that point.  `mine` are the
      pages the client has to begin with. */
  method Replay(b: Backend, mine: seq<int>, ops: seq<Op>) returns (pages: seq<int>, results: seq<ReadStatus>)
    requires b.Valid() && Flushable(b.cache.entries) && Owned(b, mine) && LegalRun(|mine|, ops)
    modifies b, b.cache
    ensures b.Valid() && Owned(b, pages) && mine <= pages && |pages| == PagesAfter(|mine|, ops)
    ensures b.view == FlatMap(old(b.view), pages, ops)
    ensures results == FlatReads(old(b.view), pages, ops)
  {
    hide Represents, Cache.Valid, Flushable, Backend.Valid, Owned;
    ghost var start, n0 := b.view, |mine|;
    pages, results := mine, [];
    for n := 0 to |ops|
      invariant b.Valid() && Flushable(b.cache.entries) && Owned(b, pages)
      invariant mine <= pages && |pages| == PagesAfter(n0, ops[..n])
      invariant b.view == FlatMap(start, pages, ops[..n])
      invariant results == FlatReads(start, pages, ops[..n])
    {
      LegalPrefix(n0, ops, n);
      assert ops[..n + 1][..n] == ops[..n];
      ghost var had := pages;
      var more: seq<ReadStatus>;
      pages, more := Perform(b, ops[n], pages);
      results := results + more;
      if ops[n].AllocateOp? {
        assert pages == had + [pages[|had|]];
        LaterPages(start, n0, had, pages[|had|], ops[..n]);
      }
    }
    assert ops[..|ops|] == ops;
  }

  lemma ViewInUsers(b: Backend)
    requires b.Valid()
    ensures b.view.Keys <= b.users
  {
  }

  lemma SameEverywhere(v: map<int, Payload>, w: map<int, Payload>, users: set<int>)
    requires v.Keys <= users && w.Keys <= users
    requires forall p :: p in users ==> SameFor(v, w, p)
    ensures v == w
  {
    forall p | p in v ensures p in w && v[p] == w[p] {
      assert SameFor(v, w, p);
    }
    forall p | p in w ensures p in v {
      assert SameFor(v, w, p);
    }
    assert v.Keys == w.Keys;
  }

  /** In the flat map a page holds the payload of its last write. */
  lemma {:induction false} FlatMapHoldsLastWrite(view: map<int, Payload>, pages: seq<int>, ops: seq<Op>, i: nat)
    requires i < |ops| && ops[i].WriteOp? && ops[i].nth < |pages|
    requires forall j :: i < j < |ops| && ops[j].WriteOp? && ops[j].nth < |pages| ==>
      pages[ops[j].nth] != pages[ops[i].nth]
    ensures var page := pages[ops[i].nth];
      page in FlatMap(view, pages, ops) && FlatMap(view, pages, ops)[page] == ops[i].payload
    decreases |ops|
  {
    if i < |ops| - 1 {
      var front := ops[..|ops| - 1];
      assert front[i] == ops[i];
      FlatMapHoldsLastWrite(view, pages, front, i);
    }
  }
}
