/** The lazy mirror: a page is written in place once, then alternates between two copies
    told apart by their generation.  Reads take the younger copy whose checksum holds.
    Each write is a short list of pwrites, so a crash leaves a prefix of that list with
    possibly one torn payload. */
module Mirror {
  import Crc = Crc32c
  import opened Options

  type Payload = seq<Crc.Byte>

  const NO_MIRROR: int := -1

  datatype Header = Header(checksum: nat, generation: nat, mirror: int)

  /** Headers and payloads by physical offset; an offset never written has neither. */
  datatype Disk = Disk(headers: map<nat, Header>, payloads: map<nat, Payload>)

  /** Logical page to physical offset; 0 means not allocated. */
  type Indirection = map<int, nat>

  function Lookup(indir: Indirection, page: int): nat {
    if page in indir then indir[page] else 0
  }

  // ---------------------------------------------------------------------------
  // Reading
  // ---------------------------------------------------------------------------

  /** `NoRecord`: nothing was ever written there.  Beyond the end of the file that is an I/O
      error; in a hole below it the record reads as zeroes and fails its checksum. */
  datatype ReadResult = Ok(payload: Payload) | NoRecord | CrcError

  predicate Intact(d: Disk, off: nat) {
    off in d.headers && off in d.payloads && Crc.Checksum(d.payloads[off]) == d.headers[off].checksum
  }

  function ReadSingle(d: Disk, off: nat): ReadResult
    requires off in d.headers
  {
    if off !in d.payloads then NoRecord
    else if !Intact(d, off) then CrcError
    else Ok(d.payloads[off])
  }

  function ReadPair(d: Disk, off: nat, sib: nat): ReadResult
    requires off in d.headers && sib in d.headers
  {
    var (active, other) := if d.headers[sib].generation > d.headers[off].generation then (sib, off) else (off, sib);
    if Intact(d, active) then Ok(d.payloads[active])
    else if Intact(d, other) then Ok(d.payloads[other])
    else CrcError
  }

  function Read(d: Disk, indir: Indirection, off: nat): ReadResult {
    if off !in d.headers then NoRecord
    else
      var m := d.headers[off].mirror;
      var sib := Lookup(indir, m);
      if m == NO_MIRROR || sib == 0 || sib !in d.headers then ReadSingle(d, off) else ReadPair(d, off, sib)
  }

  predicate HasSibling(d: Disk, indir: Indirection, off: nat)
    requires off in d.headers
  {
    var m := d.headers[off].mirror;
    m != NO_MIRROR && Lookup(indir, m) != 0 && Lookup(indir, m) in d.headers
  }

  /** The records a read may take a page from. */
  function Copies(d: Disk, indir: Indirection, off: nat): set<nat>
    requires off in d.headers
  {
    {off} + if HasSibling(d, indir, off) then {Lookup(indir, d.headers[off].mirror)} else {}
  }

  /** The youngest of the copies whose checksum holds. */
  ghost predicate YoungestIntact(d: Disk, copies: set<nat>, o: nat) {
    && o in copies && Intact(d, o)
    && forall c :: c in copies && Intact(d, c) ==> d.headers[c].generation <= d.headers[o].generation
  }

  /** A read succeeds exactly when the checksum of some copy holds, and then it returns the
      youngest such copy: bytes that fail their checksum are never handed out. */
  lemma ReadIsYoungestIntact(d: Disk, indir: Indirection, off: nat)
    requires off in d.headers
    ensures Read(d, indir, off).Ok? <==> exists o :: o in Copies(d, indir, off) && Intact(d, o)
    ensures Read(d, indir, off).Ok? ==>
      exists o :: YoungestIntact(d, Copies(d, indir, off), o) && Read(d, indir, off).payload == d.payloads[o]
    ensures Read(d, indir, off).NoRecord? <==> !HasSibling(d, indir, off) && off !in d.payloads
  {
    hide Crc.Checksum;
    var copies, sib := Copies(d, indir, off), Lookup(indir, d.headers[off].mirror);
    if sib in copies && Intact(d, sib) && (!Intact(d, off) || d.headers[sib].generation > d.headers[off].generation) {
      assert YoungestIntact(d, copies, sib);
    } else if Intact(d, off) {
      assert YoungestIntact(d, copies, off);
    }
  }

  // ---------------------------------------------------------------------------
  // Writing
  // ---------------------------------------------------------------------------

  datatype Pwrite =
    | PutHeader(off: nat, header: Header)
    | PutPayload(off: nat, payload: Payload)
    | PutLink(off: nat, mirror: int)

  function Apply(d: Disk, w: Pwrite): Disk {
    match w
    case PutHeader(off, h) => d.(headers := d.headers[off := h])
    case PutPayload(off, p) => d.(payloads := d.payloads[off := p])
    case PutLink(off, m) =>
      if off in d.headers then d.(headers := d.headers[off := d.headers[off].(mirror := m)]) else d
  }

  function ApplyAll(d: Disk, ws: seq<Pwrite>): Disk
    decreases |ws|
  {
    if ws == [] then d else ApplyAll(Apply(d, ws[0]), ws[1..])
  }

  datatype Spare = Spare(page: int, off: nat)

  datatype Mode = First | Second | Later

  function ModeOf(d: Disk, off: nat): Mode {
    if off !in d.headers || d.headers[off].generation == 0 then First
    else if d.headers[off].mirror == NO_MIRROR then Second
    else Later
  }

  function Max(a: nat, b: nat): nat {
    if a > b then a else b
  }

  /** The half a later write goes to: the one with the lower generation. */
  function Target(d: Disk, off: nat, sib: nat): nat
    requires off in d.headers && sib in d.headers
  {
    if d.headers[off].generation <= d.headers[sib].generation then off else sib
  }

  function Record(off: nat, h: Header, p: Payload): seq<Pwrite> {
    [PutHeader(off, h), PutPayload(off, p)]
  }

  /** The pwrites of one mirror write.  `spare` is what the allocator hands
      out when a sibling is needed. */
  function Plan(d: Disk, indir: Indirection, page: int, off: nat, p: Payload, spare: Spare): seq<Pwrite>
    requires ModeOf(d, off).Later? ==> Lookup(indir, d.headers[off].mirror) in d.headers
  {
    var crc := Crc.Checksum(p);
    match ModeOf(d, off)
    case First => Record(off, Header(crc, 1, NO_MIRROR), p)
    case Second =>
      Record(spare.off, Header(crc, d.headers[off].generation + 1, page), p) + [PutLink(off, spare.page)]
    case Later =>
      var sib := Lookup(indir, d.headers[off].mirror);
      var target := Target(d, off, sib);
      var gen := Max(d.headers[off].generation, d.headers[sib].generation) + 1;
      Record(target, d.headers[target].(checksum := crc, generation := gen), p)
  }

  // ---------------------------------------------------------------------------
  // Healthy pages
  // ---------------------------------------------------------------------------

  function Sibling(d: Disk, indir: Indirection, off: nat): nat
    requires off in d.headers
  {
    Lookup(indir, d.headers[off].mirror)
  }

  /** Both halves have headers of different generations. */
  predicate Paired(d: Disk, indir: Indirection, off: nat) {
    && off in d.headers
    && d.headers[off].generation > 0
    && d.headers[off].mirror != NO_MIRROR
    && Sibling(d, indir, off) != 0
    && Sibling(d, indir, off) != off
    && Sibling(d, indir, off) in d.headers
    && d.headers[off].generation != d.headers[Sibling(d, indir, off)].generation
  }

  function Younger(d: Disk, indir: Indirection, off: nat): nat
    requires Paired(d, indir, off)
  {
    if d.headers[off].generation > d.headers[Sibling(d, indir, off)].generation then off else Sibling(d, indir, off)
  }

  function Elder(d: Disk, indir: Indirection, off: nat): nat
    requires Paired(d, indir, off)
  {
    if d.headers[off].generation > d.headers[Sibling(d, indir, off)].generation then Sibling(d, indir, off) else off
  }

  /** A completely written page: its only copy, or the younger of its two, is intact. */
  predicate Healthy(d: Disk, indir: Indirection, off: nat) {
    || (ModeOf(d, off).Second? && Intact(d, off))
    || (Paired(d, indir, off) && Intact(d, Younger(d, indir, off)))
  }

  function Current(d: Disk, indir: Indirection, off: nat): Payload
    requires Healthy(d, indir, off)
  {
    if ModeOf(d, off).Second? then d.payloads[off] else d.payloads[Younger(d, indir, off)]
  }

  lemma ReadHealthy(d: Disk, indir: Indirection, off: nat)
    requires Healthy(d, indir, off)
    ensures Read(d, indir, off) == Ok(Current(d, indir, off))
  {
    hide Crc.Checksum;
  }

  predicate Usable(d: Disk, indir: Indirection, off: nat, spare: Spare) {
    && spare.page >= 0 && spare.page !in indir
    && spare.off != 0 && spare.off != off
    && spare.off !in d.headers
  }

  /** A page that a write may be applied to: never written, or fully written before. */
  predicate Writable(d: Disk, indir: Indirection, off: nat) {
    ModeOf(d, off).First? || ModeOf(d, off).Second? || Paired(d, indir, off)
  }

  function IndirAfter(d: Disk, indir: Indirection, off: nat, spare: Spare): Indirection {
    if ModeOf(d, off).Second? then indir[spare.page := spare.off] else indir
  }

  lemma ApplyShort(d: Disk, a: Pwrite, b: Pwrite, c: Pwrite)
    ensures ApplyAll(d, []) == d
    ensures ApplyAll(d, [a]) == Apply(d, a)
    ensures ApplyAll(d, [a, b]) == Apply(Apply(d, a), b)
    ensures ApplyAll(d, [a, b, c]) == Apply(Apply(Apply(d, a), b), c)
  {
    var d1, d2 := Apply(d, a), Apply(Apply(d, a), b);
    assert [a][1..] == [] && [a, b][1..] == [b] && [a, b, c][1..] == [b, c];
    assert [b][1..] == [] && [b, c][1..] == [c] && [c][1..] == [];
    assert ApplyAll(d1, [b]) == ApplyAll(Apply(d1, b), []);
    assert ApplyAll(d2, [c]) == ApplyAll(Apply(d2, c), []);
    assert ApplyAll(d1, [b, c]) == ApplyAll(d2, [c]);
  }

  lemma ApplyRecord(d: Disk, off: nat, h: Header, p: Payload)
    ensures ApplyAll(d, Record(off, h, p)) == Disk(d.headers[off := h], d.payloads[off := p])
  {
    hide Crc.Checksum;
    ApplyShort(d, PutHeader(off, h), PutPayload(off, p), PutLink(off, 0));
  }

  lemma ApplyRecordLink(d: Disk, off: nat, h: Header, p: Payload, link: nat, m: int)
    requires link in d.headers && link != off
    ensures ApplyAll(d, Record(off, h, p) + [PutLink(link, m)])
            == Disk(d.headers[off := h][link := d.headers[link].(mirror := m)], d.payloads[off := p])
  {
    hide Crc.Checksum;
    ApplyShort(d, PutHeader(off, h), PutPayload(off, p), PutLink(link, m));
    assert Record(off, h, p) + [PutLink(link, m)] == [PutHeader(off, h), PutPayload(off, p), PutLink(link, m)];
  }

  /** A completed write leaves a healthy page holding the new payload, even if the page was
      left with a corrupt half by an earlier crash. */
  lemma WriteCompletes(d: Disk, indir: Indirection, page: int, off: nat, p: Payload, spare: Spare)
    requires Writable(d, indir, off) && Usable(d, indir, off, spare)
    ensures var d', indir' := ApplyAll(d, Plan(d, indir, page, off, p, spare)), IndirAfter(d, indir, off, spare);
      Healthy(d', indir', off) && Current(d', indir', off) == p
  {
    hide Crc.Checksum;
    var crc := Crc.Checksum(p);
    match ModeOf(d, off)
    case First => ApplyRecord(d, off, Header(crc, 1, NO_MIRROR), p);
    case Second =>
      ApplyRecordLink(d, spare.off, Header(crc, d.headers[off].generation + 1, page), p, off, spare.page);
    case Later =>
      var sib := Sibling(d, indir, off);
      var target := Target(d, off, sib);
      var gen := Max(d.headers[off].generation, d.headers[sib].generation) + 1;
      ApplyRecord(d, target, d.headers[target].(checksum := crc, generation := gen), p);
  }

  /** The offsets a write can touch: the page's own two halves and the spare. */
  predicate Touched(d: Disk, indir: Indirection, off: nat, spare: Spare, o: nat) {
    || o == off
    || (ModeOf(d, off).Second? && o == spare.off)
    || (ModeOf(d, off).Later? && o == Sibling(d, indir, off))
  }

  lemma WriteLeavesRest(d: Disk, indir: Indirection, page: int, off: nat, p: Payload, spare: Spare, o: nat)
    requires Writable(d, indir, off) && Usable(d, indir, off, spare) && !Touched(d, indir, off, spare, o)
    ensures SameAt(ApplyAll(d, Plan(d, indir, page, off, p, spare)), d, o)
  {
    hide Crc.Checksum;
    var crc := Crc.Checksum(p);
    match ModeOf(d, off)
    case First => ApplyRecord(d, off, Header(crc, 1, NO_MIRROR), p);
    case Second =>
      ApplyRecordLink(d, spare.off, Header(crc, d.headers[off].generation + 1, page), p, off, spare.page);
    case Later =>
      var sib := Sibling(d, indir, off);
      var target := Target(d, off, sib);
      var gen := Max(d.headers[off].generation, d.headers[sib].generation) + 1;
      ApplyRecord(d, target, d.headers[target].(checksum := crc, generation := gen), p);
  }

  /** Nothing changed at offset `o`. */
  predicate SameAt(c: Disk, d: Disk, o: nat) {
    && (o in c.headers <==> o in d.headers)
    && (o in c.headers ==> c.headers[o] == d.headers[o])
    && (o in c.payloads <==> o in d.payloads)
    && (o in c.payloads ==> c.payloads[o] == d.payloads[o])
  }

  /** A page whose halves did not change, under an indirection that still finds its sibling. */
  lemma UntouchedPage(c: Disk, d: Disk, indir': Indirection, indir: Indirection, off: nat)
    requires Healthy(d, indir, off) && SameAt(c, d, off)
    requires ModeOf(d, off).Later? ==> SameAt(c, d, Sibling(d, indir, off))
    requires ModeOf(d, off).Later? ==> Lookup(indir', d.headers[off].mirror) == Lookup(indir, d.headers[off].mirror)
    ensures Healthy(c, indir', off) && Current(c, indir', off) == Current(d, indir, off)
    ensures c.headers[off].mirror == d.headers[off].mirror
  {
    hide Crc.Checksum;
  }

  // ---------------------------------------------------------------------------
  // Crashes
  // ---------------------------------------------------------------------------

  /** What a crash during the write can leave: the first `k` pwrites, and, if the next one
      is a payload, anything at all (`torn`) in its place. */
  function Crashed(d: Disk, ws: seq<Pwrite>, k: nat, torn: Option<Payload>): Disk
    requires k <= |ws|
  {
    var done := ApplyAll(d, ws[..k]);
    if k < |ws| && ws[k].PutPayload? && torn.Some?
    then Apply(done, PutPayload(ws[k].off, torn.value))
    else done
  }

  /** The content the crash leaves where the new payload was going, once the new header is
      already there. */
  function Landed(d: Disk, ws: seq<Pwrite>, k: nat, torn: Option<Payload>): Option<Payload>
    requires k <= |ws| && |ws| >= 2 && ws[1].PutPayload?
  {
    var c := Crashed(d, ws, k, torn);
    if k >= 1 && ws[1].off in c.payloads then Some(c.payloads[ws[1].off]) else None
  }

  lemma CrashedLater(d: Disk, off: nat, h: Header, p: Payload, k: nat, torn: Option<Payload>)
    requires k <= 2
    ensures var c := Crashed(d, Record(off, h, p), k, torn);
      && (k == 0 ==> c == d)
      && (k == 1 ==> c == Disk(d.headers[off := h], if torn.Some? then d.payloads[off := torn.value] else d.payloads))
      && (k == 2 ==> c == Disk(d.headers[off := h], d.payloads[off := p]))
  {
    hide Crc.Checksum;
    var ws := Record(off, h, p);
    ApplyShort(d, PutHeader(off, h), PutPayload(off, p), PutLink(off, 0));
    assert ws[..0] == [] && ws[..1] == [PutHeader(off, h)] && ws[..2] == ws;
  }

  lemma CrashedSecond(d: Disk, off: nat, h: Header, p: Payload, link: nat, m: int, k: nat, torn: Option<Payload>)
    requires k <= 3 && link in d.headers && link != off
    ensures var c := Crashed(d, Record(off, h, p) + [PutLink(link, m)], k, torn);
      && (k < 3 ==> forall o :: o != off ==> SameAt(c, d, o))
      && (k == 3 ==> c == ApplyAll(d, Record(off, h, p) + [PutLink(link, m)]))
  {
    hide Crc.Checksum;
    var ws := Record(off, h, p) + [PutLink(link, m)];
    ApplyShort(d, PutHeader(off, h), PutPayload(off, p), PutLink(link, m));
    assert ws[..0] == [] && ws[..1] == [PutHeader(off, h)] && ws[..2] == Record(off, h, p) && ws[..3] == ws;
    var c := Crashed(d, ws, k, torn);
    if k == 1 && torn.Some? {
      assert c == Disk(d.headers[off := h], d.payloads[off := torn.value]);
    }
  }

  /** One crash inside a second write: the old payload until the link is on disk, the new
      one from then on.  No assumption on the checksum is needed. */
  lemma CrashInSecondWrite(d: Disk, indir: Indirection, page: int, off: nat, p: Payload, spare: Spare,
                           k: nat, torn: Option<Payload>)
    requires Healthy(d, indir, off) && ModeOf(d, off).Second? && Usable(d, indir, off, spare) && k <= 3
    ensures |Plan(d, indir, page, off, p, spare)| == 3
    ensures var ws := Plan(d, indir, page, off, p, spare);
      Read(Crashed(d, ws, k, torn), indir[spare.page := spare.off], off) ==
        if k < 3 then Ok(Current(d, indir, off)) else Ok(p)
  {
    hide Crc.Checksum;
    var h := Header(Crc.Checksum(p), d.headers[off].generation + 1, page);
    CrashedSecond(d, spare.off, h, p, off, spare.page, k, torn);
    if k < 3 {
      assert SameAt(Crashed(d, Plan(d, indir, page, off, p, spare), k, torn), d, off);
    } else {
      WriteCompletes(d, indir, page, off, p, spare);
      ReadHealthy(ApplyAll(d, Plan(d, indir, page, off, p, spare)), indir[spare.page := spare.off], off);
    }
  }

  /** One crash inside a later write.  The read gives the previous or the new payload
      exactly when what landed in the new payload's place does not pass for it: neither a
      torn payload nor the one from two writes ago may carry the new checksum. */
  lemma CrashInLaterWriteIff(d: Disk, indir: Indirection, page: int, off: nat, p: Payload, spare: Spare,
                             k: nat, torn: Option<Payload>)
    requires Healthy(d, indir, off) && ModeOf(d, off).Later? && k <= 2
    ensures |Plan(d, indir, page, off, p, spare)| == 2
    ensures var ws := Plan(d, indir, page, off, p, spare);
      var prev := Current(d, indir, off);
      var x := Landed(d, ws, k, torn);
      var r := Read(Crashed(d, ws, k, torn), indir, off);
      && r.Ok?
      && (r.payload == prev || r.payload == p
          <==> (x.Some? && Crc.Checksum(x.value) == Crc.Checksum(p) ==> x.value == p || x.value == prev))
  {
    hide Crc.Checksum;
    var sib := Sibling(d, indir, off);
    var target := Target(d, off, sib);
    var gen := Max(d.headers[off].generation, d.headers[sib].generation) + 1;
    var h := d.headers[target].(checksum := Crc.Checksum(p), generation := gen);
    CrashedLater(d, target, h, p, k, torn);
    assert target == Elder(d, indir, off);
  }

  /** In particular a torn payload that differs from the new one only inside four
      consecutive bytes is always recognised. */
  lemma SmallTearIsRecovered(d: Disk, indir: Indirection, page: int, off: nat, p: Payload, spare: Spare,
                             torn: Payload, from: nat, len: nat)
    requires Healthy(d, indir, off) && ModeOf(d, off).Later?
    requires len <= 4 && Crc.DifferWithin(torn, p, from, len)
    ensures |Plan(d, indir, page, off, p, spare)| == 2
    ensures Read(Crashed(d, Plan(d, indir, page, off, p, spare), 1, Some(torn)), indir, off)
            == Ok(Current(d, indir, off))
  {
    hide Crc.Checksum;
    Crc.BurstDetected(torn, p, from, len);
    var sib := Sibling(d, indir, off);
    var target := Target(d, off, sib);
    var gen := Max(d.headers[off].generation, d.headers[sib].generation) + 1;
    var h := d.headers[target].(checksum := Crc.Checksum(p), generation := gen);
    CrashedLater(d, target, h, p, 1, Some(torn));
  }

  /** One crash is all the scheme takes: with the younger half corrupt, the next write goes
      over the only intact copy, and a tear there leaves nothing readable. */
  lemma SecondCrashLosesBoth(d: Disk, indir: Indirection, page: int, off: nat, p: Payload, spare: Spare, torn: Payload)
    requires Paired(d, indir, off) && !Intact(d, Younger(d, indir, off)) && Intact(d, Elder(d, indir, off))
    requires Crc.Checksum(torn) != Crc.Checksum(p)
    ensures Read(d, indir, off) == Ok(d.payloads[Elder(d, indir, off)])
    ensures |Plan(d, indir, page, off, p, spare)| == 2
    ensures Plan(d, indir, page, off, p, spare)[0].off == Elder(d, indir, off)
    ensures Read(Crashed(d, Plan(d, indir, page, off, p, spare), 1, Some(torn)), indir, off) == CrcError
  {
    hide Crc.Checksum;
    var sib := Sibling(d, indir, off);
    var target := Target(d, off, sib);
    var gen := Max(d.headers[off].generation, d.headers[sib].generation) + 1;
    var h := d.headers[target].(checksum := Crc.Checksum(p), generation := gen);
    CrashedLater(d, target, h, p, 1, Some(torn));
  }

  /** With the younger half intact, a tear that the checksum rejects leaves the page reading
      as before. */
  lemma RejectedTearIsSurvived(d: Disk, indir: Indirection, page: int, off: nat, p: Payload, spare: Spare,
                               torn: Payload)
    requires Paired(d, indir, off) && Intact(d, Younger(d, indir, off)) && Crc.Checksum(torn) != Crc.Checksum(p)
    ensures |Plan(d, indir, page, off, p, spare)| == 2
    ensures Read(Crashed(d, Plan(d, indir, page, off, p, spare), 1, Some(torn)), indir, off) == Read(d, indir, off)
  {
    hide Crc.Checksum;
    var sib := Sibling(d, indir, off);
    var target := Target(d, off, sib);
    var gen := Max(d.headers[off].generation, d.headers[sib].generation) + 1;
    var h := d.headers[target].(checksum := Crc.Checksum(p), generation := gen);
    CrashedLater(d, target, h, p, 1, Some(torn));
  }

  /** Every later write that tears, in a way the checksum rejects, leaves the page reading as
      it did. */
  ghost predicate SurvivesTears(d: Disk, indir: Indirection, page: int, off: nat, spare: Spare)
    requires Paired(d, indir, off)
  {
    forall p, torn ::
      Crc.Checksum(torn) != Crc.Checksum(p) ==>
        Read(Crashed(d, Plan(d, indir, page, off, p, spare), 1, Some(torn)), indir, off) == Read(d, indir, off)
  }

  /** A readable pair survives them exactly when its younger half is intact. */
  lemma SurvivesTearsIff(d: Disk, indir: Indirection, page: int, off: nat, spare: Spare)
    requires Paired(d, indir, off) && Read(d, indir, off).Ok?
    ensures SurvivesTears(d, indir, page, off, spare) <==> Intact(d, Younger(d, indir, off))
  {
    hide Crc.Checksum, Read, Crashed;
    if Intact(d, Younger(d, indir, off)) {
      forall p, torn | Crc.Checksum(torn) != Crc.Checksum(p)
        ensures Read(Crashed(d, Plan(d, indir, page, off, p, spare), 1, Some(torn)), indir, off) == Read(d, indir, off)
      {
        RejectedTearIsSurvived(d, indir, page, off, p, spare, torn);
      }
    } else {
      var p: Payload, torn: Payload := [0], [1];
      Crc.BurstDetected(torn, p, 0, 1);
      ReadableHasIntactHalf(d, indir, off);
      SecondCrashLosesBoth(d, indir, page, off, p, spare, torn);
    }
  }

  lemma ReadableHasIntactHalf(d: Disk, indir: Indirection, off: nat)
    requires Paired(d, indir, off) && Read(d, indir, off).Ok?
    ensures Intact(d, Younger(d, indir, off)) || Intact(d, Elder(d, indir, off))
  {
    hide Crc.Checksum;
  }

  // ---------------------------------------------------------------------------
  // Reading past the mirror
  // ---------------------------------------------------------------------------

  /** One mirror write, on any page it applies to. */
  function WriteOnce(d: Disk, indir: Indirection, page: int, off: nat, p: Payload, spare: Spare): Disk {
    if Writable(d, indir, off) then ApplyAll(d, Plan(d, indir, page, off, p, spare)) else d
  }

  function IndirAfterAll(indir: Indirection, spare: Spare, n: nat): Indirection {
    if n < 2 then indir else indir[spare.page := spare.off]
  }

  function WriteAll(d: Disk, indir: Indirection, page: int, off: nat, ps: seq<Payload>, spare: Spare): Disk {
    if ps == [] then d
    else
      var n := |ps| - 1;
      WriteOnce(WriteAll(d, indir, page, off, ps[..n], spare), IndirAfterAll(indir, spare, n), page, off, ps[n], spare)
  }

  /** The generations and payloads after `n` writes to a page that had none. */
  predicate Alternated(d: Disk, off: nat, ps: seq<Payload>, spare: Spare)
    requires ps != []
  {
    var n := |ps|;
    && off in d.headers && off in d.payloads
    && (n == 1 ==> spare.off !in d.headers && d.headers[off].mirror == NO_MIRROR)
    && (n >= 2 ==> d.headers[off].mirror == spare.page && spare.off in d.headers)
    && d.headers[off].generation == (if Odd(n) then n else n - 1)
    && (n >= 2 ==> d.headers[spare.off].generation == (if Odd(n) then n - 1 else n))
    && d.payloads[off] == (if Odd(n) then ps[n - 1] else ps[n - 2])
  }

  lemma {:induction false} WritesAlternate(d: Disk, indir: Indirection, page: int, off: nat, ps: seq<Payload>,
                                           spare: Spare)
    requires off != 0 && off !in d.headers && Usable(d, indir, off, spare) && ps != []
    ensures Alternated(WriteAll(d, indir, page, off, ps, spare), off, ps, spare)
    ensures Read(WriteAll(d, indir, page, off, ps, spare), IndirAfterAll(indir, spare, |ps|), off) == Ok(ps[|ps| - 1])
  {
    hide Crc.Checksum, Read, WriteAll;
    var n := |ps| - 1;
    var i := IndirAfterAll(indir, spare, n);
    var front, p := ps[..n], ps[n];
    if n == 0 {
      assert front == [];
      WriteAllLast(d, indir, page, off, ps, spare);
      assert WriteAll(d, indir, page, off, front, spare) == d by { WriteAllNone(d, indir, page, off, spare); }
      WriteCompletes(d, indir, page, off, p, spare);
      ApplyRecord(d, off, Header(Crc.Checksum(p), 1, NO_MIRROR), p);
      ReadHealthy(WriteAll(d, indir, page, off, ps, spare), indir, off);
    } else {
      WritesAlternate(d, indir, page, off, front, spare);
      var d1 := WriteAll(d, indir, page, off, front, spare);
      WriteAllLast(d, indir, page, off, ps, spare);
      AlternateStep(d1, indir, page, off, front, p, spare);
      assert ps == front + [p];
    }
  }

  lemma WriteAllNone(d: Disk, indir: Indirection, page: int, off: nat, spare: Spare)
    ensures WriteAll(d, indir, page, off, [], spare) == d
  {
  }

  lemma WriteAllLast(d: Disk, indir: Indirection, page: int, off: nat, ps: seq<Payload>, spare: Spare)
    requires ps != []
    ensures var n := |ps| - 1;
      WriteAll(d, indir, page, off, ps, spare)
      == WriteOnce(WriteAll(d, indir, page, off, ps[..n], spare), IndirAfterAll(indir, spare, n), page, off,
                   ps[n], spare)
  {
    hide WriteOnce, IndirAfterAll;
  }

  lemma AlternateStep(d: Disk, indir: Indirection, page: int, off: nat, front: seq<Payload>, p: Payload, spare: Spare)
    requires off != 0 && front != [] && spare.page >= 0 && spare.page !in indir && spare.off != 0 && spare.off != off
    requires Alternated(d, off, front, spare)
    ensures var i, i' := IndirAfterAll(indir, spare, |front|), IndirAfterAll(indir, spare, |front| + 1);
      var d' := WriteOnce(d, i, page, off, p, spare);
      Alternated(d', off, front + [p], spare) && Read(d', i', off) == Ok(p)
  {
    hide Crc.Checksum, Read;
    var i, i' := IndirAfterAll(indir, spare, |front|), IndirAfterAll(indir, spare, |front| + 1);
    var crc := Crc.Checksum(p);
    if |front| == 1 {
      assert Usable(d, i, off, spare);
      WriteCompletes(d, i, page, off, p, spare);
      ApplyRecordLink(d, spare.off, Header(crc, d.headers[off].generation + 1, page), p, off, spare.page);
      ReadHealthy(WriteOnce(d, i, page, off, p, spare), i', off);
    } else {
      assert Sibling(d, i, off) == spare.off && Paired(d, i, off);
      var target := Target(d, off, spare.off);
      var gen := Max(d.headers[off].generation, d.headers[spare.off].generation) + 1;
      ApplyRecord(d, target, d.headers[target].(checksum := crc, generation := gen), p);
      LaterWriteReads(d, i, page, off, p, spare);
    }
  }

  lemma LaterWriteReads(d: Disk, indir: Indirection, page: int, off: nat, p: Payload, spare: Spare)
    requires Paired(d, indir, off)
    ensures Read(WriteOnce(d, indir, page, off, p, spare), indir, off) == Ok(p)
  {
    hide Crc.Checksum;
    var sib := Sibling(d, indir, off);
    var target := Target(d, off, sib);
    var gen := Max(d.headers[off].generation, d.headers[sib].generation) + 1;
    ApplyRecord(d, target, d.headers[target].(checksum := Crc.Checksum(p), generation := gen), p);
  }

  predicate InOwnRecord(d: Disk, off: nat, p: Payload) {
    off in d.payloads && d.payloads[off] == p
  }

  predicate Odd(n: nat) {
    n % 2 == 1
  }

  predicate RepeatsLast(ps: seq<Payload>) {
    |ps| >= 2 && ps[|ps| - 1] == ps[|ps| - 2]
  }

  /** Overflow pages of the indirection table are written through the mirror but loaded
      from their own record directly.  The record holds the last flush exactly after an odd
      number of them, or when the last flush changed nothing. */
  lemma DirectReadIsLastFlushIff(d: Disk, indir: Indirection, page: int, off: nat, ps: seq<Payload>, spare: Spare)
    requires off != 0 && off !in d.headers && Usable(d, indir, off, spare) && ps != []
    ensures Read(WriteAll(d, indir, page, off, ps, spare), IndirAfterAll(indir, spare, |ps|), off) == Ok(ps[|ps| - 1])
    ensures InOwnRecord(WriteAll(d, indir, page, off, ps, spare), off, ps[|ps| - 1]) <==> Odd(|ps|) || RepeatsLast(ps)
  {
    hide WriteAll, Read;
    WritesAlternate(d, indir, page, off, ps, spare);
  }
}
