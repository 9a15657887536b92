/** Any number of producers pushing to the Bin at once, step by step.  A producer claims
    index `count` of the tail page by a compare-and-swap on the page's count, writes its
    item there and adds one to the Bin's count.  With no tail, or a full one, it takes the
    lock and links a new page first.  Every load, swap and store is a step of its own. */
module BinConcurrent {
  import opened BinQueue

  const MAX_RETRIES: nat := 1000

  /** A place in a page. */
  datatype Ticket = Ticket(page: nat, index: nat)

  datatype Result = Ok(ticket: Ticket) | Again | Full

  /** Where a producer is and what it has loaded. */
  datatype Pc =
    | Load(retry: nat)
    | ReadCount(retry: nat, tail: nat)
    | Swap(retry: nat, tail: nat, count: nat)
    | Lock
    | LoadLocked(retry: nat)
    | ReadLocked(retry: nat, tail: nat)
    | Alloc(retry: nat, tail: nat)
    | Link(retry: nat, tail: nat, page: nat)
    | SetTail(retry: nat, page: nat)
    | SetHead(retry: nat, page: nat)
    | SwapLocked(retry: nat, tail: nat, count: nat)
    | Write(ticket: Ticket, locked: bool)
    | Add(ticket: Ticket, locked: bool)
    | Unlock(rc: Result)
    | Done(rc: Result)

  datatype Node = Node(next: nat, count: nat)

  /** `order`, `owner` and `holder` only record what happened; no step looks at them to
      decide what to do, except that the lock is free when it has no holder. */
  datatype State = State(
    cap: nat,
    items: seq<Item>,
    pcs: seq<Pc>,
    head: nat,
    tail: nat,
    count: nat,
    pages: map<nat, Node>,
    slots: map<Ticket, Item>,
    holder: int,
    order: seq<nat>,
    owner: map<Ticket, nat>)

  function CountOf(s: State, page: nat): nat {
    if page in s.pages then s.pages[page].count else 0
  }

  /** The swap both paths share succeeds: the count is still the one that was read. */
  predicate Wins(s: State, pc: Pc) {
    (pc.Swap? || pc.SwapLocked?) && pc.tail in s.pages && s.pages[pc.tail].count == pc.count
  }

  /** Where producer `t` goes next; `spare` is what the allocator would return, 0 if nothing. */
  function NextPc(s: State, pc: Pc, spare: nat): Pc {
    match pc
    case Load(r) => if r >= MAX_RETRIES || s.tail == 0 then Lock else ReadCount(r, s.tail)
    case ReadCount(r, tail) => if CountOf(s, tail) >= s.cap then Lock else Swap(r, tail, CountOf(s, tail))
    case Swap(r, tail, n) => if Wins(s, pc) then Write(Ticket(tail, n), false) else Load(r + 1)
    case Lock => if s.holder >= 0 then Lock else LoadLocked(0)
    case LoadLocked(r) => if r >= MAX_RETRIES then Unlock(Again) else ReadLocked(r, s.tail)
    case ReadLocked(r, tail) =>
      if tail == 0 || CountOf(s, tail) >= s.cap then Alloc(r, tail) else SwapLocked(r, tail, CountOf(s, tail))
    case Alloc(r, tail) => if spare == 0 then Unlock(Full) else Link(r, tail, spare)
    case Link(r, tail, page) => SetTail(r, page)
    case SetTail(r, page) => SetHead(r, page)
    case SetHead(r, page) => SwapLocked(r, page, 0)
    case SwapLocked(r, tail, n) => if Wins(s, pc) then Write(Ticket(tail, n), true) else LoadLocked(r + 1)
    case Write(k, locked) => Add(k, locked)
    case Add(k, locked) => if locked then Unlock(Ok(k)) else Done(Ok(k))
    case Unlock(rc) => Done(rc)
    case Done(_) => pc
  }

  /** A won swap raises the page's count; a new page starts empty; linking sets one next. */
  function NextPages(s: State, pc: Pc, spare: nat): map<nat, Node> {
    if Wins(s, pc) then s.pages[pc.tail := s.pages[pc.tail].(count := pc.count + 1)]
    else if pc.Alloc? && spare != 0 then s.pages[spare := Node(0, 0)]
    else if pc.Link? && pc.tail != 0 && pc.tail in s.pages then s.pages[pc.tail := s.pages[pc.tail].(next := pc.page)]
    else s.pages
  }

  function NextHolder(s: State, t: nat, pc: Pc): int {
    if pc.Lock? && s.holder < 0 then t else if pc.Unlock? then -1 else s.holder
  }

  /** One step of producer `t`. */
  function Step(s: State, t: nat, spare: nat): State
    requires t < |s.pcs| == |s.items|
  {
    var pc := s.pcs[t];
    State(
      s.cap,
      s.items,
      s.pcs[t := NextPc(s, pc, spare)],
      if pc.SetHead? && s.head == 0 then pc.page else s.head,
      if pc.SetTail? then pc.page else s.tail,
      if pc.Add? then s.count + 1 else s.count,
      NextPages(s, pc, spare),
      if pc.Write? then s.slots[pc.ticket := s.items[t]] else s.slots,
      NextHolder(s, t, pc),
      if pc.Link? then s.order + [pc.page] else s.order,
      if Wins(s, pc) then s.owner[Ticket(pc.tail, pc.count) := t] else s.owner)
  }

  // ---------------------------------------------------------------------------
  // What each producer holds
  // ---------------------------------------------------------------------------

  predicate Claimed(pc: Pc) {
    pc.Write? || pc.Add? || Counted(pc)
  }

  predicate Counted(pc: Pc) {
    (pc.Unlock? || pc.Done?) && pc.rc.Ok?
  }

  predicate Written(pc: Pc) {
    pc.Add? || Counted(pc)
  }

  function TicketOf(pc: Pc): Ticket
    requires Claimed(pc)
  {
    match pc
    case Write(k, _) => k
    case Add(k, _) => k
    case Unlock(rc) => rc.ticket
    case Done(rc) => rc.ticket
  }

  predicate HasLock(pc: Pc) {
    match pc
    case Write(_, locked) => locked
    case Add(_, locked) => locked
    case _ =>
      || pc.LoadLocked? || pc.ReadLocked? || pc.SwapLocked? || pc.Unlock?
      || pc.Alloc? || pc.Link? || pc.SetTail? || pc.SetHead?
  }

  // ---------------------------------------------------------------------------
  // The invariant, relative to what the Bin held at the start
  // ---------------------------------------------------------------------------

  /** What was there before: pages with counts and items, and the Bin's count. */
  datatype Base = Base(counts: map<nat, nat>, items: map<Ticket, Item>, total: nat)

  function Before(b: Base, page: nat): nat {
    if page in b.counts then b.counts[page] else 0
  }

  ghost predicate LockInv(s: State) {
    && |s.pcs| == |s.items| && s.cap > 0
    && (s.holder >= 0 ==> s.holder < |s.pcs| && HasLock(s.pcs[s.holder]))
    && (forall t :: 0 <= t < |s.pcs| && HasLock(s.pcs[t]) ==> s.holder == t)
  }

  /** Claims and the places below the counts match one to one. */
  ghost predicate OwnerInv(s: State, b: Base) {
    && (forall k :: k in s.owner <==> k.page in s.pages && Before(b, k.page) <= k.index < s.pages[k.page].count)
    && TicketsMatch(s)
  }

  ghost predicate TicketsMatch(s: State) {
    && (forall k :: k in s.owner ==>
      s.owner[k] < |s.pcs| && Claimed(s.pcs[s.owner[k]]) && TicketOf(s.pcs[s.owner[k]]) == k)
    && (forall t :: 0 <= t < |s.pcs| && Claimed(s.pcs[t]) ==>
      TicketOf(s.pcs[t]) in s.owner && s.owner[TicketOf(s.pcs[t])] == t)
  }

  /** No page is overfull or below what it held at the start. */
  ghost predicate PageInv(s: State, b: Base) {
    && (forall p :: p in b.counts ==> p in s.pages)
    && (forall p :: p in s.pages ==> Before(b, p) <= s.pages[p].count <= s.cap)
    && (forall p :: p in s.pages && p !in s.order ==> s.pages[p].count == 0)
  }

  ghost predicate SlotInv(s: State, b: Base) {
    && |s.pcs| == |s.items|
    && (forall k :: k in b.items ==> k.index < Before(b, k.page) && k in s.slots && s.slots[k] == b.items[k])
    && (forall t :: 0 <= t < |s.pcs| && Written(s.pcs[t]) ==>
          TicketOf(s.pcs[t]) in s.slots && s.slots[TicketOf(s.pcs[t])] == s.items[t])
  }

  function CountedSet(pcs: seq<Pc>): set<nat> {
    set t | 0 <= t < |pcs| && Counted(pcs[t])
  }

  ghost predicate CountInv(s: State, b: Base) {
    s.count == b.total + |CountedSet(s.pcs)|
  }

  function Last(order: seq<nat>): nat {
    if order == [] then 0 else order[|order| - 1]
  }

  /** What a producer has loaded still makes sense. */
  ghost predicate LocalInv(s: State, pc: Pc) {
    match pc
    case ReadCount(_, tail) => tail in s.order
    case Swap(_, tail, n) => tail in s.order && n < s.cap
    case ReadLocked(_, tail) => tail == s.tail
    case Alloc(_, tail) => tail == s.tail
    case Link(_, tail, page) =>
      tail == s.tail && page != 0 && page !in s.order && page in s.pages && s.pages[page] == Node(0, 0)
    case SetTail(_, page) => page == Last(s.order) && page != 0
    case SetHead(_, page) => page == s.tail && page != 0
    case SwapLocked(_, tail, n) => tail in s.order && n < s.cap
    case _ => true
  }

  /** Where the lock holder is; anything else if nobody has the lock. */
  function HolderPc(s: State): Pc {
    if 0 <= s.holder < |s.pcs| then s.pcs[s.holder] else Lock
  }

  function Front(order: seq<nat>): seq<nat> {
    if order == [] then [] else order[..|order| - 1]
  }

  ghost predicate LinkInv(s: State) {
    && (forall i, j :: 0 <= i < j < |s.order| ==> s.order[i] != s.order[j])
    && (forall i :: 0 <= i < |s.order| ==> s.order[i] != 0 && s.order[i] in s.pages)
    && (forall i :: 0 <= i < |s.order| ==> s.pages[s.order[i]].next == PageAt(s.order, i + 1))
  }

  /** Head and tail, up to the page the lock holder may be busy putting in place. */
  ghost predicate EndsInv(s: State) {
    && s.tail == (if HolderPc(s).SetTail? then Last(Front(s.order)) else Last(s.order))
    && (s.head == PageAt(s.order, 0) ||
        (s.head == 0 && |s.order| == 1 && (HolderPc(s).SetTail? || HolderPc(s).SetHead?)))
  }

  ghost predicate LocalsInv(s: State) {
    forall t :: 0 <= t < |s.pcs| ==> LocalInv(s, s.pcs[t])
  }

  predicate Legal(s: State, t: nat, spare: nat) {
    t < |s.pcs| == |s.items| && (spare == 0 || spare !in s.pages)
  }

  // ---------------------------------------------------------------------------
  // What one step can change
  // ---------------------------------------------------------------------------

  lemma StepShape(s: State, t: nat, spare: nat)
    requires Legal(s, t, spare)
    ensures var s' := Step(s, t, spare);
      && |s'.pcs| == |s.pcs| && s'.pcs == s.pcs[t := s'.pcs[t]] && s'.items == s.items && s'.cap == s.cap
  {
  }

  lemma StepLock(s: State, t: nat, spare: nat)
    requires Legal(s, t, spare)
    ensures |Step(s, t, spare).pcs| == |s.pcs|
    ensures var s' := Step(s, t, spare);
      var pc, pc' := s.pcs[t], s'.pcs[t];
      || (s'.holder == s.holder && HasLock(pc') == HasLock(pc))
      || (s.holder < 0 && s'.holder == t && HasLock(pc') && !HasLock(pc))
      || (HasLock(pc) && s'.holder == -1 && !HasLock(pc'))
  {
  }

  /** The step is a successful swap on index `k`. */
  predicate Claims(s: State, s': State, t: nat, k: Ticket)
    requires t < |s.pcs| == |s'.pcs|
  {
    && (s.pcs[t].Swap? || s.pcs[t].SwapLocked?) && s.pcs[t].tail == k.page && s.pcs[t].count == k.index
    && s'.pcs[t].Write? && s'.pcs[t].ticket == k
    && k.page in s.pages && s.pages[k.page].count == k.index
    && s'.pages == s.pages[k.page := s.pages[k.page].(count := k.index + 1)]
    && s'.owner == s.owner[k := t]
  }

  /** Nothing was claimed: counts and tickets are as before, a new page is empty. */
  ghost predicate NoClaim(s: State, s': State, t: nat)
    requires t < |s.pcs| == |s'.pcs|
  {
    && s'.owner == s.owner
    && Claimed(s'.pcs[t]) == Claimed(s.pcs[t])
    && (Claimed(s.pcs[t]) ==> TicketOf(s'.pcs[t]) == TicketOf(s.pcs[t]))
    && (forall p :: p in s.pages ==> p in s'.pages && s'.pages[p].count == s.pages[p].count)
    && (forall p :: p in s'.pages && p !in s.pages ==> s'.pages[p].count == 0)
  }

  lemma StepClaim(s: State, t: nat, spare: nat)
    requires Legal(s, t, spare)
    ensures |Step(s, t, spare).pcs| == |s.pcs|
    ensures NoClaim(s, Step(s, t, spare), t) ||
      ((s.pcs[t].Swap? || s.pcs[t].SwapLocked?) &&
       Claims(s, Step(s, t, spare), t, Ticket(s.pcs[t].tail, s.pcs[t].count)))
  {
  }

  lemma StepSlots(s: State, t: nat, spare: nat)
    requires Legal(s, t, spare)
    ensures |Step(s, t, spare).pcs| == |s.pcs|
    ensures var s' := Step(s, t, spare);
      var pc, pc' := s.pcs[t], s'.pcs[t];
      || (s'.slots == s.slots && Written(pc') == Written(pc) && (Written(pc) ==> TicketOf(pc') == TicketOf(pc)))
      || (pc.Write? && pc'.Add? && pc'.ticket == pc.ticket && s'.slots == s.slots[pc.ticket := s.items[t]])
  {
  }

  lemma StepCount(s: State, t: nat, spare: nat)
    requires Legal(s, t, spare)
    ensures |Step(s, t, spare).pcs| == |s.pcs|
    ensures var s' := Step(s, t, spare);
      var pc, pc' := s.pcs[t], s'.pcs[t];
      || (s'.count == s.count && Counted(pc') == Counted(pc))
      || (s'.count == s.count + 1 && Counted(pc') && !Counted(pc))
  {
  }

  // ---------------------------------------------------------------------------
  // Every step keeps the invariant
  // ---------------------------------------------------------------------------

  lemma StepKeepsLock(s: State, t: nat, spare: nat)
    requires LockInv(s) && Legal(s, t, spare)
    ensures LockInv(Step(s, t, spare))
  {
    hide Step, HasLock;
    StepShape(s, t, spare);
    StepLock(s, t, spare);
  }

  lemma StepKeepsPages(s: State, b: Base, t: nat, spare: nat)
    requires PageInv(s, b) && LocalsInv(s) && Legal(s, t, spare)
    ensures PageInv(Step(s, t, spare), b)
  {
    hide Step, Claimed, TicketOf;
    StepShape(s, t, spare);
    StepClaim(s, t, spare);
    StepOrder(s, t, spare);
    assert LocalInv(s, s.pcs[t]);
  }

  lemma StepOrder(s: State, t: nat, spare: nat)
    requires Legal(s, t, spare)
    ensures s.order <= Step(s, t, spare).order
  {
  }

  lemma StepKeepsOwner(s: State, b: Base, t: nat, spare: nat)
    requires OwnerInv(s, b) && PageInv(s, b) && Legal(s, t, spare)
    ensures OwnerInv(Step(s, t, spare), b)
  {
    hide Step, OwnerInv, PageInv, NoClaim, Claims;
    var s' := Step(s, t, spare);
    StepShape(s, t, spare);
    StepClaim(s, t, spare);
    if NoClaim(s, s', t) {
      NoClaimOwner(s, s', b, t);
    } else {
      ClaimOwner(s, s', b, t, Ticket(s.pcs[t].tail, s.pcs[t].count));
    }
  }

  lemma NoClaimOwner(s: State, s': State, b: Base, t: nat)
    requires OwnerInv(s, b) && PageInv(s, b) && t < |s.pcs| == |s'.pcs| && s'.pcs == s.pcs[t := s'.pcs[t]]
    requires NoClaim(s, s', t)
    ensures OwnerInv(s', b)
  {
    hide Claimed, TicketOf;
  }

  lemma ClaimDomain(s: State, s': State, b: Base, t: nat, k: Ticket)
    requires (forall j :: j in s.owner <==> j.page in s.pages && Before(b, j.page) <= j.index < s.pages[j.page].count)
    requires PageInv(s, b) && t < |s.pcs| == |s'.pcs| && Claims(s, s', t, k)
    ensures forall j :: j in s'.owner <==> j.page in s'.pages && Before(b, j.page) <= j.index < s'.pages[j.page].count
  {
    forall j ensures j in s'.owner <==> j.page in s'.pages && Before(b, j.page) <= j.index < s'.pages[j.page].count {
      if j.page == k.page && j.index == k.index {
        assert j == k;
      }
    }
  }

  lemma ClaimOwner(s: State, s': State, b: Base, t: nat, k: Ticket)
    requires OwnerInv(s, b) && PageInv(s, b) && t < |s.pcs| == |s'.pcs| && s'.pcs == s.pcs[t := s'.pcs[t]]
    requires Claims(s, s', t, k)
    ensures OwnerInv(s', b)
  {
    hide TicketsMatch;
    assert k !in s.owner;
    ClaimDomain(s, s', b, t, k);
    ClaimTickets(s, s', t, k);
  }

  lemma ClaimTickets(s: State, s': State, t: nat, k: Ticket)
    requires t < |s.pcs| == |s'.pcs| && s'.pcs == s.pcs[t := s'.pcs[t]] && Claims(s, s', t, k) && k !in s.owner
    requires TicketsMatch(s)
    ensures TicketsMatch(s')
  {
    assert !Claimed(s.pcs[t]) && Claimed(s'.pcs[t]) && TicketOf(s'.pcs[t]) == k;
    hide Claimed, TicketOf;
    forall j | j in s'.owner
      ensures s'.owner[j] < |s'.pcs| && Claimed(s'.pcs[s'.owner[j]]) && TicketOf(s'.pcs[s'.owner[j]]) == j
    {
      if j != k {
        assert s.owner[j] != t;
      }
    }
  }

  lemma StepKeepsSlots(s: State, b: Base, t: nat, spare: nat)
    requires SlotInv(s, b) && OwnerInv(s, b) && Legal(s, t, spare)
    ensures SlotInv(Step(s, t, spare), b)
  {
    hide Step;
    var s' := Step(s, t, spare);
    StepShape(s, t, spare);
    StepSlots(s, t, spare);
    forall u | 0 <= u < |s'.pcs| && Written(s'.pcs[u])
      ensures TicketOf(s'.pcs[u]) in s'.slots && s'.slots[TicketOf(s'.pcs[u])] == s'.items[u]
    {
      if u != t && s.pcs[t].Write? {
        assert s.owner[TicketOf(s.pcs[u])] == u && s.owner[TicketOf(s.pcs[t])] == t;
      }
    }
  }

  lemma StepKeepsCount(s: State, b: Base, t: nat, spare: nat)
    requires CountInv(s, b) && Legal(s, t, spare)
    ensures CountInv(Step(s, t, spare), b)
  {
    hide Step, Counted;
    var s' := Step(s, t, spare);
    StepShape(s, t, spare);
    StepCount(s, t, spare);
    if Counted(s'.pcs[t]) && !Counted(s.pcs[t]) {
      assert CountedSet(s'.pcs) == CountedSet(s.pcs) + {t};
    } else {
      assert CountedSet(s'.pcs) == CountedSet(s.pcs);
    }
  }

  /** Links change only by appending the page the lock holder has in hand. */
  lemma StepKeepsLinks(s: State, t: nat, spare: nat)
    requires LinkInv(s) && EndsInv(s) && LocalsInv(s) && LockInv(s) && Legal(s, t, spare)
    ensures LinkInv(Step(s, t, spare))
  {
    hide NextPc, NextHolder, LinkInv;
    var s' := Step(s, t, spare);
    assert LocalInv(s, s.pcs[t]);
    if s.pcs[t].Link? {
      assert s.tail == Last(s.order);
      LinkAppended(s, s', s.pcs[t].page);
    } else {
      SameLinks(s, s');
    }
  }

  lemma SameLinks(s: State, s': State)
    requires LinkInv(s) && s'.order == s.order
    requires forall p :: p in s.pages ==> p in s'.pages && s'.pages[p].next == s.pages[p].next
    ensures LinkInv(s')
  {
  }

  lemma LinkAppended(s: State, s': State, page: nat)
    requires LinkInv(s) && page != 0 && page !in s.order && page in s.pages && s.pages[page] == Node(0, 0)
    requires s'.order == s.order + [page]
    requires var tail := Last(s.order);
      s'.pages == if tail != 0 && tail in s.pages then s.pages[tail := s.pages[tail].(next := page)] else s.pages
    ensures LinkInv(s')
  {
    var n := |s.order|;
    forall i | 0 <= i < |s'.order|
      ensures s'.order[i] in s'.pages && s'.pages[s'.order[i]].next == PageAt(s'.order, i + 1) {
      if i < n - 1 {
        assert s.order[i] != s.order[n - 1];
      }
    }
  }

  lemma StepKeepsEnds(s: State, t: nat, spare: nat)
    requires LinkInv(s) && EndsInv(s) && LocalsInv(s) && LockInv(s) && Legal(s, t, spare)
    ensures EndsInv(Step(s, t, spare))
  {
    hide EndsInv, LinkInv, Step, HasLock, LocalInv;
    var pc := s.pcs[t];
    assert LocalInv(s, pc);
    if pc.Link? || pc.SetTail? || pc.SetHead? {
      assert s.holder == t by { BusyHasLock(pc); }
      BusyEnds(s, t, spare);
    } else {
      SameBusy(s, t, spare);
      SameEnds(s, Step(s, t, spare));
    }
  }

  lemma BusyHasLock(pc: Pc)
    requires pc.Link? || pc.SetTail? || pc.SetHead?
    ensures HasLock(pc)
  {
  }

  /** The three steps that put a new page in place. */
  lemma BusyEnds(s: State, t: nat, spare: nat)
    requires LinkInv(s) && EndsInv(s) && Legal(s, t, spare) && s.holder == t && LocalInv(s, s.pcs[t])
    requires s.pcs[t].Link? || s.pcs[t].SetTail? || s.pcs[t].SetHead?
    ensures EndsInv(Step(s, t, spare))
  {
    hide NextPages, EndsInv, PageAt, Last, Front;
    assert s.order != [] ==> s.order[0] != 0;
    hide LinkInv;
    var s' := Step(s, t, spare);
    if s.pcs[t].Link? {
      LinkedEnds(s, s', s.pcs[t].page);
    } else if s.pcs[t].SetTail? {
      TailEnds(s, s', s.pcs[t].page);
    } else {
      HeadEnds(s, s', s.pcs[t].page);
    }
  }

  lemma LinkedEnds(s: State, s': State, page: nat)
    requires EndsInv(s) && HolderPc(s).Link? && HolderPc(s').SetTail?
    requires s'.order == s.order + [page] && s'.head == s.head && s'.tail == s.tail
    ensures EndsInv(s')
  {
    assert Front(s'.order) == s.order;
  }

  lemma TailEnds(s: State, s': State, page: nat)
    requires EndsInv(s) && HolderPc(s).SetTail? && HolderPc(s').SetHead?
    requires page == Last(s.order) && s'.order == s.order && s'.head == s.head && s'.tail == page
    ensures EndsInv(s')
  {
  }

  lemma HeadEnds(s: State, s': State, page: nat)
    requires EndsInv(s) && HolderPc(s).SetHead? && HolderPc(s').SwapLocked?
    requires page == s.tail && page != 0 && (s.order != [] ==> s.order[0] != 0)
    requires s'.order == s.order && s'.tail == s.tail && s'.head == if s.head == 0 then page else s.head
    ensures EndsInv(s')
  {
  }

  lemma SameBusy(s: State, t: nat, spare: nat)
    requires LockInv(s) && Legal(s, t, spare) && !(s.pcs[t].Link? || s.pcs[t].SetTail? || s.pcs[t].SetHead?)
    ensures var s' := Step(s, t, spare);
      && s'.head == s.head && s'.tail == s.tail && s'.order == s.order
      && HolderPc(s').SetTail? == HolderPc(s).SetTail? && HolderPc(s').SetHead? == HolderPc(s).SetHead?
  {
    hide NextPages;
  }

  lemma SameEnds(s: State, s': State)
    requires EndsInv(s) && s'.head == s.head && s'.tail == s.tail && s'.order == s.order
    requires HolderPc(s').SetTail? == HolderPc(s).SetTail? && HolderPc(s').SetHead? == HolderPc(s).SetHead?
    ensures EndsInv(s')
  {
    hide HolderPc;
  }

  /** A producer without the lock leaves the ends, the links and any unlinked page alone. */
  lemma StepWithoutLock(s: State, t: nat, spare: nat)
    requires LocalsInv(s) && Legal(s, t, spare) && !HasLock(s.pcs[t])
    ensures var s' := Step(s, t, spare);
      && s'.tail == s.tail && s'.order == s.order
      && forall p :: p in s.pages && p !in s.order ==> p in s'.pages && s'.pages[p] == s.pages[p]
  {
    hide NextPc, NextHolder;
    assert LocalInv(s, s.pcs[t]);
  }

  lemma LocalStable(s: State, s': State, pc: Pc)
    requires LocalInv(s, pc) && s.order <= s'.order && s'.cap == s.cap
    requires HasLock(pc) ==> s'.tail == s.tail && s'.order == s.order
    requires HasLock(pc) ==> forall p :: p in s.pages && p !in s.order ==> p in s'.pages && s'.pages[p] == s.pages[p]
    ensures LocalInv(s', pc)
  {
    assert forall p :: p in s.order ==> p in s'.order;
  }

  lemma OwnLocal(s: State, t: nat, spare: nat)
    requires LinkInv(s) && EndsInv(s) && LocalsInv(s) && LockInv(s) && Legal(s, t, spare)
    ensures LocalInv(Step(s, t, spare), NextPc(s, s.pcs[t], spare))
  {
    assert s.cap > 0;
    hide LinkInv, EndsInv, LockInv, HolderPc;
    var pc := s.pcs[t];
    assert LocalInv(s, pc);
    if pc.Alloc? || pc.Link? || pc.SetTail? {
      assert s.holder == t by { HolderOf(s, t); }
      PlacingLocal(s, t, spare);
    } else {
      TailLinked(s);
      OtherLocal(s, t, spare);
    }
  }

  lemma HolderOf(s: State, t: nat)
    requires LockInv(s) && t < |s.pcs| && (s.pcs[t].Alloc? || s.pcs[t].Link? || s.pcs[t].SetTail?)
    ensures s.holder == t
  {
  }

  lemma TailLinked(s: State)
    requires LinkInv(s) && EndsInv(s)
    ensures s.tail != 0 ==> s.tail in s.order
  {
  }

  lemma PlacingLocal(s: State, t: nat, spare: nat)
    requires LinkInv(s) && Legal(s, t, spare) && LocalInv(s, s.pcs[t]) && s.holder == t
    requires s.pcs[t].Alloc? || s.pcs[t].Link? || s.pcs[t].SetTail?
    ensures LocalInv(Step(s, t, spare), NextPc(s, s.pcs[t], spare))
  {
  }

  lemma OtherLocal(s: State, t: nat, spare: nat)
    requires Legal(s, t, spare) && LocalInv(s, s.pcs[t]) && s.cap > 0 && (s.tail != 0 ==> s.tail in s.order)
    requires !(s.pcs[t].Alloc? || s.pcs[t].Link? || s.pcs[t].SetTail?)
    ensures LocalInv(Step(s, t, spare), NextPc(s, s.pcs[t], spare))
  {
    hide NextPages, NextHolder, Wins;
  }

  lemma StepKeepsLocals(s: State, t: nat, spare: nat)
    requires LinkInv(s) && EndsInv(s) && LocalsInv(s) && LockInv(s) && Legal(s, t, spare)
    ensures LocalsInv(Step(s, t, spare))
  {
    hide Step, LocalInv, LinkInv, EndsInv, HasLock, NextPc;
    var s' := Step(s, t, spare);
    StepShape(s, t, spare);
    StepOrder(s, t, spare);
    StepGoes(s, t, spare);
    forall u | 0 <= u < |s'.pcs| ensures LocalInv(s', s'.pcs[u]) {
      if u == t {
        OwnLocal(s, t, spare);
      } else {
        if HasLock(s.pcs[u]) {
          StepWithoutLock(s, t, spare);
        }
        LocalStable(s, s', s.pcs[u]);
      }
    }
  }

  lemma StepGoes(s: State, t: nat, spare: nat)
    requires Legal(s, t, spare)
    ensures |Step(s, t, spare).pcs| == |s.pcs| && Step(s, t, spare).pcs[t] == NextPc(s, s.pcs[t], spare)
  {
    hide NextPc;
  }

  // ---------------------------------------------------------------------------
  // Whole runs
  // ---------------------------------------------------------------------------

  ghost predicate Inv(s: State, b: Base) {
    && LockInv(s) && PageInv(s, b) && OwnerInv(s, b) && SlotInv(s, b) && CountInv(s, b)
    && LinkInv(s) && EndsInv(s) && LocalsInv(s)
  }

  lemma StepKeepsInv(s: State, b: Base, t: nat, spare: nat)
    requires Inv(s, b) && Legal(s, t, spare)
    ensures Inv(Step(s, t, spare), b)
  {
    hide LockInv, PageInv, OwnerInv, SlotInv, CountInv, LinkInv, EndsInv, LocalsInv, Step;
    StepKeepsLock(s, t, spare);
    StepKeepsPages(s, b, t, spare);
    StepKeepsOwner(s, b, t, spare);
    StepKeepsSlots(s, b, t, spare);
    StepKeepsCount(s, b, t, spare);
    StepKeepsLinks(s, t, spare);
    StepKeepsEnds(s, t, spare);
    StepKeepsLocals(s, t, spare);
  }

  /** Which producer moves, and what the allocator would give it. */
  datatype Move = Move(thread: nat, spare: nat)

  predicate LegalRun(s: State, moves: seq<Move>)
    decreases |moves|
  {
    moves == [] ||
    (Legal(s, moves[0].thread, moves[0].spare) && LegalRun(Step(s, moves[0].thread, moves[0].spare), moves[1..]))
  }

  function Run(s: State, moves: seq<Move>): State
    requires LegalRun(s, moves)
    decreases |moves|
  {
    if moves == [] then s else Run(Step(s, moves[0].thread, moves[0].spare), moves[1..])
  }

  lemma {:induction false} RunKeepsInv(s: State, b: Base, moves: seq<Move>)
    requires Inv(s, b) && LegalRun(s, moves)
    ensures Inv(Run(s, moves), b)
    decreases |moves|
  {
    hide Inv, Step;
    if moves != [] {
      StepKeepsInv(s, b, moves[0].thread, moves[0].spare);
      RunKeepsInv(Step(s, moves[0].thread, moves[0].spare), b, moves[1..]);
    }
  }

  /** All producers about to start on a Bin at rest. */
  ghost predicate Initial(s: State, b: Base) {
    && |s.pcs| == |s.items| && s.cap > 0 && s.holder == -1 && s.owner == map[]
    && (forall t :: 0 <= t < |s.pcs| ==> s.pcs[t] == Load(0))
    && LinkInv(s) && s.head == PageAt(s.order, 0) && s.tail == Last(s.order)
    && b.counts == (map p | p in s.pages :: s.pages[p].count)
    && (forall p :: p in s.pages ==> p in s.order && s.pages[p].count <= s.cap)
    && s.count == b.total
    && (forall k :: k in b.items ==> k.index < Before(b, k.page) && k in s.slots && s.slots[k] == b.items[k])
  }

  lemma InitialInv(s: State, b: Base)
    requires Initial(s, b)
    ensures Inv(s, b)
  {
    hide LinkInv;
    assert CountedSet(s.pcs) == {};
  }

  /** The places in use on the pages of a Bin. */
  function Places(pages: Pages, order: seq<nat>, cap: nat): set<Ticket> {
    set p, i | p in order && 0 <= i < cap && p in pages && i < pages[p].count && i < |pages[p].slots| :: Ticket(p, i)
  }

  function BaseOf(pages: Pages, order: seq<nat>, cap: nat, count: nat): Base {
    Base(map p | p in order && p in pages :: pages[p].count,
         map k | k in Places(pages, order, cap) :: pages[k.page].slots[k.index],
         count)
  }

  function StartOf(pages: Pages, head: nat, tail: nat, order: seq<nat>, cap: nat, count: nat, items: seq<Item>): State {
    State(cap, items, seq(|items|, _ => Load(0)), head, tail, count,
          map p | p in order && p in pages :: Node(pages[p].next, pages[p].count),
          BaseOf(pages, order, cap, count).items, -1, order, map[])
  }

  lemma LinkedPages(pages: Pages, head: nat, tail: nat, order: seq<nat>, stacks: seq<Stack>, cap: nat, i: nat)
    requires Represents(pages, head, tail, order, stacks, cap) && i < |order|
    ensures order[i] != 0 && order[i] in pages && pages[order[i]].count <= cap == |pages[order[i]].slots|
    ensures pages[order[i]].next == PageAt(order, i + 1)
  {
    assert Holds(pages, order, i, stacks[i], cap);
  }

  lemma BinLinks(pages: Pages, head: nat, tail: nat, order: seq<nat>, stacks: seq<Stack>, cap: nat, s: State)
    requires Represents(pages, head, tail, order, stacks, cap) && s.order == order
    requires s.pages == map p | p in order && p in pages :: Node(pages[p].next, pages[p].count)
    ensures LinkInv(s) && (forall p :: p in s.pages ==> p in s.order && s.pages[p].count <= cap)
  {
    hide Holds, PageAt;
    forall i | 0 <= i < |order|
      ensures order[i] != 0 && order[i] in s.pages && s.pages[order[i]].next == PageAt(order, i + 1) {
      LinkedPages(pages, head, tail, order, stacks, cap, i);
    }
    forall p | p in s.pages ensures s.pages[p].count <= cap {
      var i :| 0 <= i < |order| && order[i] == p;
      LinkedPages(pages, head, tail, order, stacks, cap, i);
    }
  }

  lemma BaseItems(pages: Pages, order: seq<nat>, cap: nat, count: nat)
    ensures var b := BaseOf(pages, order, cap, count);
      forall k :: k in b.items ==> k.index < Before(b, k.page)
  {
  }

  /** Producers may start on any Bin that pushes and pops have left behind. */
  lemma BinIsInitial(pages: Pages, head: nat, tail: nat, order: seq<nat>, stacks: seq<Stack>, cap: nat, count: nat,
                     items: seq<Item>)
    requires Represents(pages, head, tail, order, stacks, cap) && cap > 0
    ensures Initial(StartOf(pages, head, tail, order, cap, count, items), BaseOf(pages, order, cap, count))
  {
    hide Holds, LinkInv, Places;
    var s, b := StartOf(pages, head, tail, order, cap, count, items), BaseOf(pages, order, cap, count);
    BinLinks(pages, head, tail, order, stacks, cap, s);
    BaseItems(pages, order, cap, count);
    assert b.counts == map p | p in s.pages :: s.pages[p].count;
  }

  ghost predicate Finished(s: State) {
    forall t :: 0 <= t < |s.pcs| ==> s.pcs[t].Done?
  }

  predicate Succeeded(s: State, t: nat)
    requires t < |s.pcs|
  {
    s.pcs[t].Done? && s.pcs[t].rc.Ok?
  }

  /** At every moment of every run, no two producers hold the same place. */
  lemma ClaimsAreDistinct(s: State, b: Base, moves: seq<Move>, t: nat, u: nat)
    requires Initial(s, b) && LegalRun(s, moves) && t < u < |Run(s, moves).pcs|
    requires Claimed(Run(s, moves).pcs[t]) && Claimed(Run(s, moves).pcs[u])
    ensures TicketOf(Run(s, moves).pcs[t]) != TicketOf(Run(s, moves).pcs[u])
  {
    hide Run, LegalRun, Initial, Claimed, TicketOf;
    InitialInv(s, b);
    RunKeepsInv(s, b, moves);
  }

  /** At every moment of every run, no page holds more than it has room for. */
  lemma NoPageOverfills(s: State, b: Base, moves: seq<Move>, p: nat)
    requires Initial(s, b) && LegalRun(s, moves) && p in Run(s, moves).pages
    ensures Run(s, moves).pages[p].count <= Run(s, moves).cap
  {
    hide Run, LegalRun, Initial;
    InitialInv(s, b);
    RunKeepsInv(s, b, moves);
  }

  /** Once all are done: the pages are linked from head to tail, every success has its item
      at a place of its own in a linked page, every place filled since the start belongs to
      a success, what was there before is untouched, and the count has grown by exactly the
      number of successes. */
  lemma PushesLand(s: State, b: Base, moves: seq<Move>)
    requires Initial(s, b) && LegalRun(s, moves) && Finished(Run(s, moves))
    ensures Landed(Run(s, moves), b)
  {
    hide Run, LegalRun, Initial, Landed, Inv, Finished;
    InitialInv(s, b);
    RunKeepsInv(s, b, moves);
    FinishedLanded(Run(s, moves), b);
  }

  ghost predicate Landed(s: State, b: Base) {
    && |s.pcs| == |s.items| && s.holder < 0
    && LinkInv(s) && s.head == PageAt(s.order, 0) && s.tail == Last(s.order)
    && (forall t :: 0 <= t < |s.pcs| && Succeeded(s, t) ==> PlacedIn(s, b, s.pcs[t].rc.ticket, s.items[t]))
    && (forall t, u :: 0 <= t < u < |s.pcs| && Succeeded(s, t) && Succeeded(s, u) ==>
      s.pcs[t].rc.ticket != s.pcs[u].rc.ticket)
    && (forall k: Ticket :: k.page in s.pages && Before(b, k.page) <= k.index < s.pages[k.page].count ==>
          exists t :: 0 <= t < |s.pcs| && Succeeded(s, t) && s.pcs[t].rc.ticket == k)
    && (forall k :: k in b.items ==> k in s.slots && s.slots[k] == b.items[k])
    && s.count == b.total + |set t | 0 <= t < |s.pcs| && Succeeded(s, t)|
  }

  predicate PlacedIn(s: State, b: Base, k: Ticket, x: Item) {
    && k.page in s.order && k.page in s.pages && Before(b, k.page) <= k.index < s.pages[k.page].count <= s.cap
    && k in s.slots && s.slots[k] == x
  }

  lemma FinishedLanded(s: State, b: Base)
    requires Inv(s, b) && Finished(s)
    ensures Landed(s, b)
  {
    hide LinkInv, OwnerInv, PageInv, SlotInv, CountInv, LockInv, EndsInv, LocalsInv, Finished, PlacedIn;
    FinishedEnds(s);
    forall k: Ticket | k.page in s.pages && Before(b, k.page) <= k.index < s.pages[k.page].count
      ensures exists t :: 0 <= t < |s.pcs| && Succeeded(s, t) && s.pcs[t].rc.ticket == k
    {
      FinishedOwner(s, b, k);
    }
    forall t | 0 <= t < |s.pcs| && Succeeded(s, t) ensures PlacedIn(s, b, s.pcs[t].rc.ticket, s.items[t]) {
      FinishedPlaced(s, b, t);
    }
    forall t, u | 0 <= t < u < |s.pcs| && Succeeded(s, t) && Succeeded(s, u)
      ensures s.pcs[t].rc.ticket != s.pcs[u].rc.ticket {
      FinishedDistinct(s, b, t, u);
    }
    FinishedCount(s, b);
    FinishedKept(s, b);
  }

  lemma FinishedEnds(s: State)
    requires LockInv(s) && EndsInv(s) && Finished(s)
    ensures |s.pcs| == |s.items| && s.holder < 0 && s.head == PageAt(s.order, 0) && s.tail == Last(s.order)
  {
  }

  lemma FinishedOwner(s: State, b: Base, k: Ticket)
    requires OwnerInv(s, b) && Finished(s)
    requires k.page in s.pages && Before(b, k.page) <= k.index < s.pages[k.page].count
    ensures exists t :: 0 <= t < |s.pcs| && Succeeded(s, t) && s.pcs[t].rc.ticket == k
  {
    assert k in s.owner;
    var t := s.owner[k];
    assert s.pcs[t].Done? && Claimed(s.pcs[t]) && TicketOf(s.pcs[t]) == k;
    assert Succeeded(s, t);
  }

  lemma FinishedPlaced(s: State, b: Base, t: nat)
    requires OwnerInv(s, b) && PageInv(s, b) && SlotInv(s, b) && t < |s.pcs| && Succeeded(s, t)
    ensures PlacedIn(s, b, s.pcs[t].rc.ticket, s.items[t])
  {
    assert Claimed(s.pcs[t]) && Written(s.pcs[t]) && TicketOf(s.pcs[t]) == s.pcs[t].rc.ticket;
    hide Claimed, Written, TicketOf;
    assert s.pcs[t].rc.ticket in s.owner;
  }

  lemma FinishedDistinct(s: State, b: Base, t: nat, u: nat)
    requires OwnerInv(s, b) && t < u < |s.pcs| && Succeeded(s, t) && Succeeded(s, u)
    ensures s.pcs[t].rc.ticket != s.pcs[u].rc.ticket
  {
    assert Claimed(s.pcs[t]) && TicketOf(s.pcs[t]) == s.pcs[t].rc.ticket;
    assert Claimed(s.pcs[u]) && TicketOf(s.pcs[u]) == s.pcs[u].rc.ticket;
  }

  lemma FinishedCount(s: State, b: Base)
    requires CountInv(s, b) && Finished(s)
    ensures s.count == b.total + |set t | 0 <= t < |s.pcs| && Succeeded(s, t)|
  {
    assert CountedSet(s.pcs) == set t | 0 <= t < |s.pcs| && Succeeded(s, t);
  }

  lemma FinishedKept(s: State, b: Base)
    requires SlotInv(s, b)
    ensures forall k :: k in b.items ==> k in s.slots && s.slots[k] == b.items[k]
  {
  }
}
