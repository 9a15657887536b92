/** When a push to the Bin may fail.  A producer gives up as full exactly when the allocator
    refused it a page, and as congested exactly when it lost the swap a thousand times while
    holding the lock; one that is left alone and can get a page always succeeds. */
module BinOutcome {
  import opened BinConcurrent

  // ---------------------------------------------------------------------------
  // One step
  // ---------------------------------------------------------------------------

  predicate Refused(pc: Pc, spare: nat) {
    pc.Alloc? && spare == 0
  }

  /** A swap under the lock that found another count than the one read. */
  predicate LosesLocked(s: State, pc: Pc) {
    pc.SwapLocked? && !Wins(s, pc)
  }

  predicate NeedsPage(s: State) {
    s.tail == 0 || CountOf(s, s.tail) >= s.cap
  }

  /** The lock is worth taking: no tail, a full page, or the retries used up. */
  predicate GivesUpFast(s: State, pc: Pc) {
    || (pc.Load? && (s.tail == 0 || pc.retry >= MAX_RETRIES))
    || (pc.ReadCount? && CountOf(s, pc.tail) >= s.cap)
  }

  /** What a step must have found to end a push one way or the other, and to go for the
      lock, a new page or a place. */
  lemma StepOutcome(s: State, t: nat, spare: nat)
    requires Legal(s, t, spare)
    ensures |Step(s, t, spare).pcs| == |s.pcs|
    ensures var pc, pc' := s.pcs[t], Step(s, t, spare).pcs[t];
      && (pc' == Unlock(Full) <==> Refused(pc, spare))
      && (pc' == Unlock(Again) <==> pc.LoadLocked? && pc.retry >= MAX_RETRIES)
      && (pc'.Write? <==> Wins(s, pc))
      && (pc'.Done? <==> pc.Done? || pc.Unlock? || (pc.Add? && !pc.locked))
      && (pc'.Load? <==> pc.Swap? && !Wins(s, pc)) && (pc'.Load? ==> pc'.retry == pc.retry + 1)
      && (pc'.Lock? && !pc.Lock? <==> GivesUpFast(s, pc))
  {
    hide NextPages;
  }

  /** Under the lock a new page is taken exactly when the tail is missing or full. */
  lemma StepTakesPage(s: State, b: Base, t: nat, spare: nat)
    requires Inv(s, b) && Legal(s, t, spare)
    ensures |Step(s, t, spare).pcs| == |s.pcs|
    ensures Step(s, t, spare).pcs[t].Alloc? <==> s.pcs[t].ReadLocked? && NeedsPage(s)
  {
    hide NextPages, LockInv, PageInv, OwnerInv, SlotInv, CountInv, LinkInv, EndsInv;
    assert LocalInv(s, s.pcs[t]);
  }

  // ---------------------------------------------------------------------------
  // Whole runs
  // ---------------------------------------------------------------------------

  /** How often the allocator refused producer `t`. */
  function Refusals(s: State, moves: seq<Move>, t: nat): nat
    requires LegalRun(s, moves) && t < |s.pcs|
    decreases |moves|
  {
    if moves == [] then 0
    else
      var m := moves[0];
      (if m.thread == t && Refused(s.pcs[t], m.spare) then 1 else 0) +
      Refusals(Step(s, m.thread, m.spare), moves[1..], t)
  }

  /** How often producer `t` lost the swap while it had the lock. */
  function LockedLosses(s: State, moves: seq<Move>, t: nat): nat
    requires LegalRun(s, moves) && t < |s.pcs|
    decreases |moves|
  {
    if moves == [] then 0
    else
      var m := moves[0];
      (if m.thread == t && LosesLocked(s, s.pcs[t]) then 1 else 0) +
      LockedLosses(Step(s, m.thread, m.spare), moves[1..], t)
  }

  /** Where a producer can be after `n` refusals. */
  predicate RefusedSoFar(pc: Pc, n: nat) {
    n == if pc == Unlock(Full) || pc == Done(Full) then 1 else 0
  }

  /** Where a producer can be after `n` losses under the lock. */
  predicate LostSoFar(pc: Pc, n: nat) {
    match pc
    case LoadLocked(r) => n == r <= MAX_RETRIES
    case ReadLocked(r, _) => n == r < MAX_RETRIES
    case Alloc(r, _) => n == r < MAX_RETRIES
    case Link(r, _, _) => n == r < MAX_RETRIES
    case SetTail(r, _) => n == r < MAX_RETRIES
    case SetHead(r, _) => n == r < MAX_RETRIES
    case SwapLocked(r, _, _) => n == r < MAX_RETRIES
    case Unlock(rc) => if rc.Again? then n == MAX_RETRIES else n < MAX_RETRIES
    case Done(rc) => if rc.Again? then n == MAX_RETRIES else n < MAX_RETRIES
    case Write(_, _) => n < MAX_RETRIES
    case Add(_, _) => n < MAX_RETRIES
    case _ => n == 0
  }

  lemma StepRefused(s: State, t: nat, spare: nat, n: nat)
    requires Legal(s, t, spare) && RefusedSoFar(s.pcs[t], n)
    ensures |Step(s, t, spare).pcs| == |s.pcs|
    ensures RefusedSoFar(Step(s, t, spare).pcs[t], n + if Refused(s.pcs[t], spare) then 1 else 0)
  {
    hide NextPages;
  }

  lemma StepLost(s: State, t: nat, spare: nat, n: nat)
    requires Legal(s, t, spare) && LostSoFar(s.pcs[t], n)
    ensures |Step(s, t, spare).pcs| == |s.pcs|
    ensures LostSoFar(Step(s, t, spare).pcs[t], n + if LosesLocked(s, s.pcs[t]) then 1 else 0)
  {
    hide NextPages;
  }

  lemma OthersStay(s: State, u: nat, spare: nat, t: nat)
    requires Legal(s, u, spare) && t < |s.pcs| && t != u
    ensures |Step(s, u, spare).pcs| == |s.pcs| && Step(s, u, spare).pcs[t] == s.pcs[t]
  {
    hide NextPc, NextPages;
  }

  lemma {:induction false} RunTallies(s: State, moves: seq<Move>, t: nat, m: nat, n: nat)
    requires LegalRun(s, moves) && t < |s.pcs| && RefusedSoFar(s.pcs[t], m) && LostSoFar(s.pcs[t], n)
    ensures |Run(s, moves).pcs| == |s.pcs|
    ensures RefusedSoFar(Run(s, moves).pcs[t], m + Refusals(s, moves, t))
    ensures LostSoFar(Run(s, moves).pcs[t], n + LockedLosses(s, moves, t))
    decreases |moves|
  {
    hide Step, Refused, LosesLocked, RefusedSoFar, LostSoFar;
    if moves != [] {
      var u, spare := moves[0].thread, moves[0].spare;
      var m', n' := m, n;
      if u == t {
        StepRefused(s, t, spare, m);
        StepLost(s, t, spare, n);
        m' := m + if Refused(s.pcs[t], spare) then 1 else 0;
        n' := n + if LosesLocked(s, s.pcs[t]) then 1 else 0;
      } else {
        OthersStay(s, u, spare, t);
      }
      RunTallies(Step(s, u, spare), moves[1..], t, m', n');
    }
  }

  /** In every run of any number of producers: a push that is over failed as full exactly
      when the allocator refused it, failed as congested exactly when it lost the swap a
      thousand times under the lock, and otherwise succeeded. */
  lemma WhenPushFails(s: State, b: Base, moves: seq<Move>, t: nat)
    requires Initial(s, b) && LegalRun(s, moves) && t < |s.pcs|
    ensures |Run(s, moves).pcs| == |s.pcs|
    ensures var pc := Run(s, moves).pcs[t];
      pc.Done? ==>
        && (pc.rc.Full? <==> Refusals(s, moves, t) > 0)
        && (pc.rc.Again? <==> LockedLosses(s, moves, t) == MAX_RETRIES)
        && (pc.rc.Ok? <==> Refusals(s, moves, t) == 0 && LockedLosses(s, moves, t) < MAX_RETRIES)
  {
    hide Run, LegalRun, Refusals, LockedLosses, LinkInv;
    RunTallies(s, moves, t, 0, 0);
  }

  /** A refusal is a move of that producer on which no page was on offer. */
  lemma {:induction false} RefusalIsAMove(s: State, moves: seq<Move>, t: nat)
    requires LegalRun(s, moves) && t < |s.pcs| && Refusals(s, moves, t) > 0
    ensures Move(t, 0) in moves
    decreases |moves|
  {
    hide Step;
    var u, spare := moves[0].thread, moves[0].spare;
    StepShape(s, u, spare);
    if !(u == t && Refused(s.pcs[t], spare)) {
      RefusalIsAMove(Step(s, u, spare), moves[1..], t);
    } else {
      assert moves[0] == Move(t, 0);
    }
  }

  /** So nobody is ever told the Bin is full while every allocation is met. */
  lemma FullNeedsRefusal(s: State, b: Base, moves: seq<Move>, t: nat)
    requires Initial(s, b) && LegalRun(s, moves) && t < |s.pcs|
    ensures |Run(s, moves).pcs| == |s.pcs|
    ensures Run(s, moves).pcs[t] == Done(Full) ==> Move(t, 0) in moves
  {
    hide Run, LegalRun, Refusals, LockedLosses, Initial;
    WhenPushFails(s, b, moves, t);
    if Run(s, moves).pcs[t] == Done(Full) {
      RefusalIsAMove(s, moves, t);
    }
  }

  // ---------------------------------------------------------------------------
  // A producer left alone
  // ---------------------------------------------------------------------------

  /** The producer still has what it loaded, and either it has room or pages are on offer. */
  predicate OnItsWay(s: State, pc: Pc, offer: bool) {
    match pc
    case Load(r) => r < MAX_RETRIES && s.holder < 0 && (offer || !NeedsPage(s))
    case ReadCount(_, tail) => tail == s.tail != 0 && s.holder < 0 && (offer || !NeedsPage(s))
    case Swap(_, _, _) => Wins(s, pc)
    case Lock => offer && s.holder < 0
    case LoadLocked(r) => offer && r < MAX_RETRIES
    case ReadLocked(_, tail) => offer && tail == s.tail
    case Alloc(_, _) => offer
    case Link(_, _, page) => page in s.pages && s.pages[page].count == 0
    case SetTail(_, page) => page in s.pages && s.pages[page].count == 0
    case SetHead(_, page) => page in s.pages && s.pages[page].count == 0
    case SwapLocked(_, _, _) => Wins(s, pc)
    case Unlock(rc) => rc.Ok?
    case Done(rc) => rc.Ok?
    case _ => true
  }

  /** An upper bound on the steps to the end. */
  function StepsLeft(pc: Pc): nat {
    match pc
    case Load(_) => 13
    case ReadCount(_, _) => 12
    case Lock => 11
    case LoadLocked(_) => 10
    case ReadLocked(_, _) => 9
    case Alloc(_, _) => 8
    case Link(_, _, _) => 7
    case SetTail(_, _) => 6
    case SetHead(_, _) => 5
    case SwapLocked(_, _, _) => 4
    case Swap(_, _, _) => 4
    case Write(_, _) => 3
    case Add(_, _) => 2
    case Unlock(_) => 1
    case Done(_) => 0
  }

  predicate TailIsPage(s: State) {
    s.tail != 0 ==> s.tail in s.pages
  }

  lemma StepAlone(s: State, t: nat, spare: nat, offer: bool)
    requires Legal(s, t, spare) && OnItsWay(s, s.pcs[t], offer) && TailIsPage(s) && (offer ==> spare != 0)
    ensures |Step(s, t, spare).pcs| == |s.pcs| && TailIsPage(Step(s, t, spare))
    ensures OnItsWay(Step(s, t, spare), Step(s, t, spare).pcs[t], offer)
    ensures StepsLeft(Step(s, t, spare).pcs[t]) < StepsLeft(s.pcs[t]) || Step(s, t, spare).pcs[t].Done?
  {
  }

  lemma {:induction false} RunAlone(s: State, moves: seq<Move>, t: nat, offer: bool)
    requires LegalRun(s, moves) && t < |s.pcs| && OnItsWay(s, s.pcs[t], offer) && TailIsPage(s)
    requires forall i :: 0 <= i < |moves| ==> moves[i].thread == t && (offer ==> moves[i].spare != 0)
    requires |moves| >= StepsLeft(s.pcs[t])
    ensures |Run(s, moves).pcs| == |s.pcs| && Run(s, moves).pcs[t].Done? && Run(s, moves).pcs[t].rc.Ok?
    decreases |moves|
  {
    hide Step, TailIsPage;
    if moves != [] {
      StepAlone(s, t, moves[0].spare, offer);
      RunAlone(Step(s, t, moves[0].spare), moves[1..], t, offer);
    }
  }

  lemma AloneFromInv(s: State, b: Base, moves: seq<Move>, t: nat)
    requires Inv(s, b) && LegalRun(s, moves) && t < |s.pcs| && s.pcs[t] == Load(0) && s.holder < 0
    requires |moves| >= 13 && forall i :: 0 <= i < |moves| ==> moves[i].thread == t
    requires !NeedsPage(s) || forall i :: 0 <= i < |moves| ==> moves[i].spare != 0
    ensures |Run(s, moves).pcs| == |s.pcs| && Run(s, moves).pcs[t].Done? && Run(s, moves).pcs[t].rc.Ok?
  {
    hide Run, LegalRun, LockInv, PageInv, OwnerInv, SlotInv, CountInv, EndsInv, LocalsInv;
    TailLinked(s);
    assert TailIsPage(s);
    RunAlone(s, moves, t, NeedsPage(s));
  }

  /** Wherever any run has left the others, if nobody has the lock, a producer that is about
      to start and gets 13 steps to itself succeeds, provided the tail has room or the
      allocator gives it a page. */
  lemma LonePushSucceeds(start: State, b: Base, before: seq<Move>, s: State, moves: seq<Move>, t: nat)
    requires Initial(start, b) && LegalRun(start, before) && s == Run(start, before)
    requires LegalRun(s, moves) && t < |s.pcs| && s.pcs[t] == Load(0) && s.holder < 0
    requires |moves| >= 13 && forall i :: 0 <= i < |moves| ==> moves[i].thread == t
    requires !NeedsPage(s) || forall i :: 0 <= i < |moves| ==> moves[i].spare != 0
    ensures |Run(s, moves).pcs| == |s.pcs| && Run(s, moves).pcs[t].Done? && Run(s, moves).pcs[t].rc.Ok?
  {
    hide Run, LegalRun, Inv, Initial, NeedsPage;
    InitialInv(start, b);
    RunKeepsInv(start, b, before);
    AloneFromInv(s, b, moves, t);
  }
}
