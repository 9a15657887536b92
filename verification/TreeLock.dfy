/** The tree lock: readers and one exclusive holder share a 64-bit word.  Bit 63 is the
    exclusive bit, bits 32 to 62 count readers.  Threads interleave between every atomic
    load, compare-and-swap and add. */
module TreeLock {

  const READER_INC: nat := 0x1_0000_0000
  const EXCLUSIVE: nat := 0x8000_0000_0000_0000
  const WORD: nat := 0x1_0000_0000_0000_0000
  const MAX_READERS: nat := 0x8000_0000

  predicate BitSet(w: nat) {
    (w / EXCLUSIVE) % 2 == 1
  }

  function ReaderField(w: nat): nat {
    (w / READER_INC) % MAX_READERS
  }

  /** Where a thread stands; `seen` is the word it loaded before its compare-and-swap. */
  datatype Pc =
    | Idle
    | ReadLoad
    | ReadSwap(seen: nat)
    | Reading
    | ExclLoad
    | ExclSwap(seen: nat)
    | Draining
    | Exclusive

  datatype State = State(word: nat, pc: seq<Pc>)

  function Move(s: State, t: nat, pc: Pc): State
    requires t < |s.pc|
  {
    s.(pc := s.pc[t := pc])
  }

  /** Atomic add and subtract wrap around at 64 bits. */
  function Plus(w: nat, d: nat): nat {
    (w + d) % WORD
  }

  function Minus(w: nat, d: nat): nat
    requires d <= WORD
  {
    (w + WORD - d) % WORD
  }

  /** One atomic step of thread `t`.  `wantShared` is the choice an idle thread makes. */
  function Next(s: State, t: nat, wantShared: bool): (s': State)
    requires t < |s.pc|
    ensures |s'.pc| == |s.pc|
  {
    match s.pc[t]
    case Idle => Move(s, t, if wantShared then ReadLoad else ExclLoad)
    case ReadLoad => if BitSet(s.word) then s else Move(s, t, ReadSwap(s.word))
    case ReadSwap(seen) =>
      if s.word == seen then Move(s, t, Reading).(word := Plus(seen, READER_INC)) else Move(s, t, ReadLoad)
    case Reading => Move(s, t, Idle).(word := Minus(s.word, READER_INC))
    case ExclLoad => if BitSet(s.word) then s else Move(s, t, ExclSwap(s.word))
    case ExclSwap(seen) =>
      if s.word == seen then Move(s, t, Draining).(word := WithBit(seen)) else Move(s, t, ExclLoad)
    case Draining => if ReaderField(s.word) == 0 then Move(s, t, Exclusive) else s
    case Exclusive => Move(s, t, Idle).(word := Minus(s.word, EXCLUSIVE))
  }

  /** Bitwise or with the exclusive bit. */
  function WithBit(w: nat): nat {
    if BitSet(w) then w else w + EXCLUSIVE
  }

  datatype Act = Act(thread: nat, wantShared: bool)

  predicate Schedule(n: nat, acts: seq<Act>) {
    forall i :: 0 <= i < |acts| ==> acts[i].thread < n
  }

  function Run(s: State, acts: seq<Act>): (s': State)
    requires Schedule(|s.pc|, acts)
    ensures |s'.pc| == |s.pc|
    decreases |acts|
  {
    if acts == [] then s else Run(Next(s, acts[0].thread, acts[0].wantShared), acts[1..])
  }

  function Initial(n: nat): State {
    State(0, seq(n, _ => Idle))
  }

  // ---------------------------------------------------------------------------
  // The invariant
  // ---------------------------------------------------------------------------

  function Readers(s: State): set<nat> {
    set t | 0 <= t < |s.pc| && s.pc[t].Reading?
  }

  /** Threads that own the exclusive bit, whether still draining or already inside. */
  function Owners(s: State): set<nat> {
    set t | 0 <= t < |s.pc| && (s.pc[t].Draining? || s.pc[t].Exclusive?)
  }

  function Encode(owned: bool, readers: nat): nat {
    (if owned then EXCLUSIVE else 0) + READER_INC * readers
  }

  /** What the word has room for: the count may fill its field and then reads as the
      exclusive bit, but only while nobody owns that. */
  predicate Fits(owned: bool, readers: nat) {
    readers < MAX_READERS || (readers == MAX_READERS && !owned)
  }

  ghost predicate Inv(s: State) {
    && |Owners(s)| <= 1
    && s.word == Encode(Owners(s) != {}, |Readers(s)|)
    && Fits(Owners(s) != {}, |Readers(s)|)
    && (forall t :: 0 <= t < |s.pc| && s.pc[t].Exclusive? ==> Readers(s) == {})
    && (forall t :: 0 <= t < |s.pc| && s.pc[t].ReadSwap? ==> !BitSet(s.pc[t].seen))
    && (forall t :: 0 <= t < |s.pc| && s.pc[t].ExclSwap? ==> !BitSet(s.pc[t].seen))
  }

  /** The bit is set by an owner, or by exactly 2^31 readers; below that the count reads
      back as well. */
  lemma EncodeFields(owned: bool, readers: nat)
    requires Fits(owned, readers)
    ensures BitSet(Encode(owned, readers)) <==> owned || readers == MAX_READERS
    ensures readers < MAX_READERS ==> ReaderField(Encode(owned, readers)) == readers
    ensures Encode(owned, readers) < WORD
  {
  }

  lemma {:induction false} CountBound(ts: set<nat>, n: nat)
    requires forall t :: t in ts ==> t < n
    ensures |ts| <= n
  {
    if n > 0 {
      var rest := ts - {n - 1};
      CountBound(rest, n - 1);
      assert ts <= rest + {n - 1};
    } else {
      assert ts == {};
    }
  }

  lemma MoveSets(s: State, t: nat, pc: Pc)
    requires t < |s.pc|
    ensures var s' := Move(s, t, pc);
      && Readers(s') == (if pc.Reading? then Readers(s) + {t} else Readers(s) - {t})
      && Owners(s') == (if pc.Draining? || pc.Exclusive? then Owners(s) + {t} else Owners(s) - {t})
  {
  }

  lemma AtMostOne(owners: set<nat>, t: nat, u: nat)
    requires |owners| <= 1 && t in owners && u in owners
    ensures t == u
  {
    var rest := owners - {t};
    assert |rest| == 0;
    assert u !in rest;
  }

  /** The four word updates, in terms of the two fields. */
  lemma WordUpdates(owned: bool, readers: nat)
    requires Fits(owned, readers)
    ensures readers < MAX_READERS ==> Plus(Encode(false, readers), READER_INC) == Encode(false, readers + 1)
    ensures readers > 0 ==> Minus(Encode(owned, readers), READER_INC) == Encode(owned, readers - 1)
    ensures readers < MAX_READERS ==> WithBit(Encode(false, readers)) == Encode(true, readers)
    ensures readers < MAX_READERS ==> Minus(Encode(true, readers), EXCLUSIVE) == Encode(false, readers)
  {
    EncodeFields(false, readers);
  }

  /** A thread outside both sets that stays outside: only its saved word matters. */
  lemma OutsideKeepsInv(s: State, t: nat, pc: Pc)
    requires Inv(s) && t < |s.pc| && t !in Readers(s) && t !in Owners(s)
    requires pc.Idle? || pc.ReadLoad? || pc.ExclLoad? || ((pc.ReadSwap? || pc.ExclSwap?) && !BitSet(pc.seen))
    ensures Inv(Move(s, t, pc))
  {
    hide BitSet, Encode, Fits;
    MoveSets(s, t, pc);
  }

  lemma EnterShared(s: State, t: nat)
    requires Inv(s) && t < |s.pc| && s.pc[t] == ReadSwap(s.word)
    ensures Inv(Next(s, t, true))
  {
    EncodeFields(Owners(s) != {}, |Readers(s)|);
    assert Owners(s) == {};
    MoveSets(s, t, Reading);
    assert t !in Readers(s);
    WordUpdates(false, |Readers(s)|);
    NoExclusiveWithoutOwner(s);
    SetsIgnoreWord(Move(s, t, Reading), Next(s, t, true));
  }

  lemma LeaveShared(s: State, t: nat)
    requires Inv(s) && t < |s.pc| && s.pc[t].Reading?
    ensures Inv(Next(s, t, true))
  {
    assert t in Readers(s) && t !in Owners(s);
    WordUpdates(Owners(s) != {}, |Readers(s)|);
    OneReaderLess(s, t, Next(s, t, true));
  }

  lemma OneFits(owned: bool, readers: nat)
    requires Fits(owned, readers) && readers > 0
    ensures Fits(owned, readers - 1)
  {
  }

  lemma OneReaderLess(s: State, t: nat, s': State)
    requires Inv(s) && t < |s.pc| && s.pc[t].Reading? && t in Readers(s) && t !in Owners(s)
    requires s'.pc == s.pc[t := Idle] && s'.word == Encode(Owners(s) != {}, |Readers(s)| - 1)
    ensures Inv(s')
  {
    hide BitSet, Encode, Fits, Readers, Owners;
    OneFits(Owners(s) != {}, |Readers(s)|);
    MoveSets(s, t, Idle);
    SetsIgnoreWord(Move(s, t, Idle), s');
    assert Owners(s') == Owners(s);
    assert |Readers(s')| == |Readers(s)| - 1;
  }

  lemma EnterExclusive(s: State, t: nat)
    requires Inv(s) && t < |s.pc| && s.pc[t] == ExclSwap(s.word)
    ensures Inv(Next(s, t, true))
  {
    hide Encode, BitSet, ReaderField;
    EncodeFields(Owners(s) != {}, |Readers(s)|);
    assert Owners(s) == {};
    MoveSets(s, t, Draining);
    assert t !in Readers(s);
    WordUpdates(false, |Readers(s)|);
    NoExclusiveWithoutOwner(s);
    SetsIgnoreWord(Move(s, t, Draining), Next(s, t, true));
  }

  lemma LeaveExclusive(s: State, t: nat)
    requires Inv(s) && t < |s.pc| && s.pc[t].Exclusive?
    ensures Inv(Next(s, t, true))
  {
    MoveSets(s, t, Idle);
    assert t in Owners(s) && t !in Readers(s);
    forall u | u in Owners(s) ensures u == t {
      AtMostOne(Owners(s), t, u);
    }
    assert Owners(Move(s, t, Idle)) == {};
    WordUpdates(true, 0);
    NoExclusiveWithoutOwner(Move(s, t, Idle));
    SetsIgnoreWord(Move(s, t, Idle), Next(s, t, true));
  }

  lemma SetsIgnoreWord(s: State, s': State)
    requires s.pc == s'.pc
    ensures Readers(s) == Readers(s') && Owners(s) == Owners(s')
  {
  }

  lemma NextKeepsInv(s: State, t: nat, wantShared: bool)
    requires Inv(s) && t < |s.pc|
    ensures Inv(Next(s, t, wantShared))
  {
    match s.pc[t] {
      case Idle => OutsideKeepsInv(s, t, if wantShared then ReadLoad else ExclLoad);
      case ReadLoad =>
        if !BitSet(s.word) {
          OutsideKeepsInv(s, t, ReadSwap(s.word));
        }
      case ReadSwap(seen) =>
        if s.word == seen {
          EnterShared(s, t);
        } else {
          OutsideKeepsInv(s, t, ReadLoad);
        }
      case Reading => LeaveShared(s, t);
      case ExclLoad =>
        if !BitSet(s.word) {
          OutsideKeepsInv(s, t, ExclSwap(s.word));
        }
      case ExclSwap(seen) =>
        if s.word == seen {
          EnterExclusive(s, t);
        } else {
          OutsideKeepsInv(s, t, ExclLoad);
        }
      case Draining => Drain(s, t);
      case Exclusive => LeaveExclusive(s, t);
    }
  }

  lemma Drain(s: State, t: nat)
    requires Inv(s) && t < |s.pc| && s.pc[t].Draining?
    ensures Inv(Next(s, t, true))
  {
    EncodeFields(Owners(s) != {}, |Readers(s)|);
    if ReaderField(s.word) == 0 {
      assert Readers(s) == {};
      assert t in Owners(s);
      MoveSets(s, t, Exclusive);
      assert Owners(s) + {t} == Owners(s);
    }
  }

  lemma NoExclusiveWithoutOwner(s: State)
    requires Owners(s) == {}
    ensures forall t :: 0 <= t < |s.pc| ==> !s.pc[t].Exclusive? && !s.pc[t].Draining?
  {
    forall t | 0 <= t < |s.pc| ensures !s.pc[t].Exclusive? && !s.pc[t].Draining? {
      assert t !in Owners(s);
    }
  }

  lemma {:induction false} RunKeepsInv(s: State, acts: seq<Act>)
    requires Inv(s) && Schedule(|s.pc|, acts)
    ensures Inv(Run(s, acts)) && |Run(s, acts).pc| == |s.pc|
    decreases |acts|
  {
    if acts != [] {
      NextKeepsInv(s, acts[0].thread, acts[0].wantShared);
      RunKeepsInv(Next(s, acts[0].thread, acts[0].wantShared), acts[1..]);
    }
  }

  lemma InitialInv(n: nat)
    ensures Inv(Initial(n))
  {
    assert Readers(Initial(n)) == {} && Owners(Initial(n)) == {};
  }

  /** Every interleaving of any number of threads: no reader inside together with an
      exclusive holder, at most one exclusive holder, and a word that is always the
      exclusive bit plus 2^32 per reader. */
  lemma MutualExclusion(n: nat, acts: seq<Act>, t: nat, u: nat)
    requires Schedule(n, acts) && t < n && u < n && t != u
    ensures var s := Run(Initial(n), acts);
      && |s.pc| == n
      && !(s.pc[t].Exclusive? && s.pc[u].Reading?)
      && !(s.pc[t].Exclusive? && s.pc[u].Exclusive?)
      && s.word == Encode(Owners(s) != {}, |Readers(s)|)
  {
    var s0 := Initial(n);
    InitialInv(n);
    RunKeepsInv(s0, acts);
    var s := Run(s0, acts);
    if s.pc[t].Exclusive? {
      assert u !in Readers(s);
      assert t in Owners(s);
      if u in Owners(s) {
        AtMostOne(Owners(s), t, u);
      }
    }
  }

  /** While the bit is owned nobody new gets in: each step can only shrink the readers. */
  lemma NoNewReaders(s: State, t: nat, wantShared: bool)
    requires Inv(s) && t < |s.pc| && Owners(s) != {}
    ensures Readers(Next(s, t, wantShared)) <= Readers(s)
  {
    EncodeFields(true, |Readers(s)|);
  }

  // ---------------------------------------------------------------------------
  // Getting in
  // ---------------------------------------------------------------------------

  /** A draining thread is let in by its next step exactly when the last reader has left. */
  lemma DrainedEnters(s: State, t: nat, wantShared: bool)
    requires Inv(s) && t < |s.pc| && s.pc[t].Draining?
    ensures Next(s, t, wantShared).pc[t].Exclusive? <==> Readers(s) == {}
  {
    assert t in Owners(s);
    EncodeFields(true, |Readers(s)|);
  }

  /** Two steps after it made up its mind, a thread nobody interferes with reads, or owns
      the bit, if that was clear. */
  lemma LoneRead(s: State, t: nat)
    requires Inv(s) && t < |s.pc| && Owners(s) == {} && |Readers(s)| < MAX_READERS && s.pc[t].ReadLoad?
    ensures Next(Next(s, t, true), t, true).pc[t].Reading?
  {
    hide Encode, BitSet, Plus;
    EncodeFields(false, |Readers(s)|);
  }

  lemma LoneOwn(s: State, t: nat)
    requires Inv(s) && t < |s.pc| && Owners(s) == {} && |Readers(s)| < MAX_READERS && s.pc[t].ExclLoad?
    ensures var s' := Next(Next(s, t, false), t, false);
      Inv(s') && s'.pc[t].Draining? && Readers(s') == Readers(s)
  {
    hide Encode, BitSet, WithBit, Inv;
    assert s.word == Encode(false, |Readers(s)|) by { InvWord(s); }
    EncodeFields(false, |Readers(s)|);
    var s1 := Next(s, t, false);
    NextKeepsInv(s, t, false);
    NextKeepsInv(s1, t, false);
    MoveSets(s, t, ExclSwap(s.word));
    MoveSets(s1, t, Draining);
    SetsIgnoreWord(Move(s1, t, Draining), Next(s1, t, false));
    assert t !in Readers(s);
  }

  lemma InvWord(s: State)
    requires Inv(s)
    ensures s.word == Encode(Owners(s) != {}, |Readers(s)|)
  {
  }

  lemma Decide(s: State, t: nat, wantShared: bool)
    requires Inv(s) && t < |s.pc| && s.pc[t].Idle?
    ensures var s' := Next(s, t, wantShared);
      && Inv(s') && s'.pc[t] == (if wantShared then ReadLoad else ExclLoad)
      && Owners(s') == Owners(s) && Readers(s') == Readers(s)
  {
    var pc := if wantShared then ReadLoad else ExclLoad;
    assert t !in Readers(s) && t !in Owners(s);
    assert Next(s, t, wantShared) == Move(s, t, pc);
    hide Inv, Next, Readers, Owners;
    OutsideKeepsInv(s, t, pc);
    MoveSets(s, t, pc);
    assert Readers(s) - {t} == Readers(s) && Owners(s) - {t} == Owners(s);
  }

  lemma RunThree(s: State, a: Act)
    requires a.thread < |s.pc|
    ensures Run(s, [a, a, a]) == Next(Next(Next(s, a.thread, a.wantShared), a.thread, a.wantShared),
                                      a.thread, a.wantShared)
    ensures Run(s, [a, a, a, a]) == Next(Run(s, [a, a, a]), a.thread, a.wantShared)
  {
    hide Next;
    var t, w := a.thread, a.wantShared;
    var s1 := Next(s, t, w);
    var s2 := Next(s1, t, w);
    var s3 := Next(s2, t, w);
    assert [a, a, a, a][1..] == [a, a, a] && [a, a, a][1..] == [a, a] && [a, a][1..] == [a] && [a][1..] == [];
    assert Run(s3, [a]) == Run(Next(s3, t, w), []);
    assert Run(s2, [a]) == Run(s3, []) && Run(s2, [a, a]) == Run(s3, [a]);
    assert Run(s1, [a, a]) == Run(s2, [a]) && Run(s1, [a, a, a]) == Run(s2, [a, a]);
  }

  /** After any run, an idle thread that is left alone gets in: to read if nobody owns the
      bit and the count has room, exclusively if nobody is inside at all. */
  lemma LoneThreadEnters(n: nat, acts: seq<Act>, t: nat, s: State)
    requires Schedule(n, acts) && t < n && s == Run(Initial(n), acts)
    ensures |s.pc| == n
    ensures s.pc[t].Idle? && Owners(s) == {} && |Readers(s)| < MAX_READERS ==>
      var a := Act(t, true); Run(s, [a, a, a]).pc[t].Reading?
    ensures s.pc[t].Idle? && Owners(s) == {} && Readers(s) == {} ==>
      var a := Act(t, false); Run(s, [a, a, a, a]).pc[t].Exclusive?
  {
    hide Next, Inv, Readers, Owners;
    InitialInv(n);
    RunKeepsInv(Initial(n), acts);
    if s.pc[t].Idle? && Owners(s) == {} && |Readers(s)| < MAX_READERS {
      RunThree(s, Act(t, true));
      RunThree(s, Act(t, false));
      Decide(s, t, true);
      Decide(s, t, false);
      LoneRead(Next(s, t, true), t);
      LoneOwn(Next(s, t, false), t);
      DrainedEnters(Run(s, [Act(t, false), Act(t, false), Act(t, false)]), t, false);
    }
  }

  // ---------------------------------------------------------------------------
  // A full reader count
  // ---------------------------------------------------------------------------

  /** After every run the exclusive bit reads as set exactly when somebody owns it or 2^31
      readers are inside. */
  lemma BitMeansOwnerOrFull(n: nat, acts: seq<Act>)
    requires Schedule(n, acts)
    ensures var s := Run(Initial(n), acts);
      BitSet(s.word) <==> Owners(s) != {} || |Readers(s)| == MAX_READERS
  {
    InitialInv(n);
    RunKeepsInv(Initial(n), acts);
    var s := Run(Initial(n), acts);
    EncodeFields(Owners(s) != {}, |Readers(s)|);
  }

  /** The first `k` threads acquire shared, one after the other. */
  function AllRead(k: nat): seq<Act> {
    if k == 0 then [] else var a := Act(k - 1, true); AllRead(k - 1) + [a, a, a]
  }

  function FirstReading(n: nat, k: nat): State {
    State(Encode(false, k), seq(n, i => if i < k then Reading else Idle))
  }

  lemma {:induction false} RunConcat(s: State, xs: seq<Act>, ys: seq<Act>)
    requires Schedule(|s.pc|, xs) && Schedule(|s.pc|, ys)
    ensures Schedule(|s.pc|, xs + ys) && |Run(s, xs).pc| == |s.pc|
    ensures Run(s, xs + ys) == Run(Run(s, xs), ys)
    decreases |xs|
  {
    if xs == [] {
      assert xs + ys == ys;
    } else {
      assert (xs + ys)[1..] == xs[1..] + ys;
      RunConcat(Next(s, xs[0].thread, xs[0].wantShared), xs[1..], ys);
    }
  }

  lemma OneMoreReader(n: nat, k: nat)
    requires k < n && k < MAX_READERS
    ensures var a := Act(k, true);
      Run(FirstReading(n, k), [a, a, a]) == FirstReading(n, k + 1)
  {
    hide Encode, BitSet, Plus;
    var s, a := FirstReading(n, k), Act(k, true);
    EncodeFields(false, k);
    WordUpdates(false, k);
    var s1 := Next(s, k, true);
    var s2 := Next(s1, k, true);
    var s3 := Next(s2, k, true);
    assert s3.pc == FirstReading(n, k + 1).pc;
    assert [a, a, a][1..] == [a, a] && [a, a][1..] == [a] && [a][1..] == [];
    assert Run(s2, [a]) == Run(s3, []) == s3;
    assert Run(s1, [a, a]) == Run(s2, [a]);
  }

  lemma {:induction false} AllReadRun(n: nat, k: nat)
    requires k <= n && k <= MAX_READERS
    ensures Schedule(n, AllRead(k)) && Run(Initial(n), AllRead(k)) == FirstReading(n, k)
  {
    if k == 0 {
      assert Initial(n).pc == FirstReading(n, 0).pc;
    } else {
      AllReadRun(n, k - 1);
      var a := Act(k - 1, true);
      RunConcat(Initial(n), AllRead(k - 1), [a, a, a]);
      OneMoreReader(n, k - 1);
    }
  }

  /** A run in which the lock looks held exclusively by nobody. */
  ghost predicate LooksHeld(n: nat, acts: seq<Act>) {
    Schedule(n, acts) && BitSet(Run(Initial(n), acts).word) && Owners(Run(Initial(n), acts)) == {}
  }

  /** Some run gets there exactly when there are at least 2^31 threads. */
  lemma TooManyReadersLookExclusive(n: nat)
    ensures (exists acts :: LooksHeld(n, acts)) <==> n >= MAX_READERS
  {
    if n >= MAX_READERS {
      var acts := AllRead(MAX_READERS);
      AllReadRun(n, MAX_READERS);
      var s := FirstReading(n, MAX_READERS);
      EncodeFields(false, MAX_READERS);
      assert Owners(s) == {};
      assert LooksHeld(n, acts);
    } else {
      forall acts ensures !LooksHeld(n, acts) {
        FewNeverLookHeld(n, acts);
      }
    }
  }

  lemma FewNeverLookHeld(n: nat, acts: seq<Act>)
    requires n < MAX_READERS
    ensures !LooksHeld(n, acts)
  {
    if Schedule(n, acts) {
      BitMeansOwnerOrFull(n, acts);
      InitialInv(n);
      RunKeepsInv(Initial(n), acts);
      CountBound(Readers(Run(Initial(n), acts)), n);
    }
  }
}
