/** The Bin: a queue of pages, each a small stack of work items.  Producers append to the
    tail page and add a page when it is full; the consumer takes the last item of the head
    page and drops the page when it is drained. */
module BinQueue {
  import opened Options

  datatype Item = Item(kind: int, context: int, context2: int)

  type Stack = seq<Item>

  // ---------------------------------------------------------------------------
  // The queue as a sequence of stacks
  // ---------------------------------------------------------------------------

  /** No page is empty or overfull, and only the first and the last may be partly filled. */
  ghost predicate Shaped(stacks: seq<Stack>, cap: nat) {
    && (forall i :: 0 <= i < |stacks| ==> 0 < |stacks[i]| <= cap)
    && (forall i :: 0 < i < |stacks| - 1 ==> |stacks[i]| == cap)
  }

  predicate NeedsPage(stacks: seq<Stack>, cap: nat) {
    stacks == [] || |stacks[|stacks| - 1]| >= cap
  }

  function Pushed(stacks: seq<Stack>, cap: nat, x: Item): seq<Stack> {
    if NeedsPage(stacks, cap) then stacks + [[x]]
    else stacks[..|stacks| - 1] + [stacks[|stacks| - 1] + [x]]
  }

  function Next(stacks: seq<Stack>): Item
    requires stacks != [] && stacks[0] != []
  {
    stacks[0][|stacks[0]| - 1]
  }

  function Popped(stacks: seq<Stack>): seq<Stack>
    requires stacks != [] && stacks[0] != []
  {
    if |stacks[0]| == 1 then stacks[1..] else [stacks[0][..|stacks[0]| - 1]] + stacks[1..]
  }

  lemma PushKeepsShape(stacks: seq<Stack>, cap: nat, x: Item)
    requires Shaped(stacks, cap) && cap > 0
    ensures Shaped(Pushed(stacks, cap, x), cap)
  {
  }

  lemma PopKeepsShape(stacks: seq<Stack>, cap: nat)
    requires Shaped(stacks, cap) && stacks != []
    ensures Shaped(Popped(stacks), cap)
  {
    if |stacks[0]| == 1 {
      assert forall i :: 0 <= i < |stacks[1..]| ==> stacks[1..][i] == stacks[i + 1];
    } else {
      assert forall i :: 0 < i < |stacks| ==> Popped(stacks)[i] == stacks[i];
    }
  }

  function Contents(stacks: seq<Stack>): multiset<Item> {
    if stacks == [] then multiset{} else multiset(stacks[0]) + Contents(stacks[1..])
  }

  function Total(stacks: seq<Stack>): nat {
    if stacks == [] then 0 else |stacks[0]| + Total(stacks[1..])
  }

  lemma {:induction false} TotalIsSize(stacks: seq<Stack>)
    ensures Total(stacks) == |Contents(stacks)|
  {
    if stacks != [] {
      TotalIsSize(stacks[1..]);
    }
  }

  lemma {:induction false} AppendContents(stacks: seq<Stack>, s: Stack)
    ensures Contents(stacks + [s]) == Contents(stacks) + multiset(s)
    ensures Total(stacks + [s]) == Total(stacks) + |s|
  {
    if stacks == [] {
      assert [s][1..] == [];
      assert stacks + [s] == [s];
    } else {
      assert (stacks + [s])[1..] == stacks[1..] + [s];
      AppendContents(stacks[1..], s);
    }
  }

  lemma PushConserves(stacks: seq<Stack>, cap: nat, x: Item)
    ensures Contents(Pushed(stacks, cap, x)) == Contents(stacks) + multiset{x}
    ensures Total(Pushed(stacks, cap, x)) == Total(stacks) + 1
  {
    hide Contents, Total;
    if NeedsPage(stacks, cap) {
      AppendContents(stacks, [x]);
    } else {
      var n := |stacks| - 1;
      var front, last := stacks[..n], stacks[n];
      assert stacks == front + [last];
      AppendContents(front, last);
      AppendContents(front, last + [x]);
      assert multiset(last + [x]) == multiset(last) + multiset{x};
    }
  }

  lemma PopConserves(stacks: seq<Stack>)
    requires stacks != [] && stacks[0] != []
    ensures Contents(stacks) == Contents(Popped(stacks)) + multiset{Next(stacks)}
    ensures Total(stacks) == Total(Popped(stacks)) + 1
  {
    var s := stacks[0];
    var n := |s| - 1;
    assert s == s[..n] + [s[n]];
    assert multiset(s) == multiset(s[..n]) + multiset{s[n]};
    if n > 0 {
      assert Popped(stacks)[1..] == stacks[1..];
    } else {
      assert s[..n] == [];
    }
  }

  // ---------------------------------------------------------------------------
  // Order
  // ---------------------------------------------------------------------------

  function PushAll(stacks: seq<Stack>, cap: nat, xs: seq<Item>): seq<Stack>
    decreases |xs|
  {
    if xs == [] then stacks else PushAll(Pushed(stacks, cap, xs[0]), cap, xs[1..])
  }

  ghost predicate NonEmpty(stacks: seq<Stack>) {
    forall i :: 0 <= i < |stacks| ==> stacks[i] != []
  }

  lemma PoppedNonEmpty(stacks: seq<Stack>)
    requires NonEmpty(stacks) && stacks != []
    ensures NonEmpty(Popped(stacks))
  {
    if |stacks[0]| == 1 {
      assert forall i :: 0 <= i < |stacks[1..]| ==> stacks[1..][i] == stacks[i + 1];
    } else {
      assert forall i :: 0 < i < |stacks| ==> Popped(stacks)[i] == stacks[i];
    }
  }

  /** What the consumer gets by popping until nothing is left. */
  ghost function Drain(stacks: seq<Stack>): seq<Item>
    requires NonEmpty(stacks)
    decreases Total(stacks)
  {
    if stacks == [] then []
    else
      PoppedNonEmpty(stacks);
      PopConserves(stacks);
      [Next(stacks)] + Drain(Popped(stacks))
  }

  function Reversed(s: Stack): Stack {
    if s == [] then [] else [s[|s| - 1]] + Reversed(s[..|s| - 1])
  }

  /** Pages come out first in, first out; the items of one page last in, first out. */
  function PageOrder(stacks: seq<Stack>): seq<Item> {
    if stacks == [] then [] else Reversed(stacks[0]) + PageOrder(stacks[1..])
  }

  lemma {:induction false} DrainIsPageOrder(stacks: seq<Stack>)
    requires NonEmpty(stacks)
    ensures Drain(stacks) == PageOrder(stacks)
    decreases Total(stacks)
  {
    hide Drain, PageOrder, Total, Popped, Next, NonEmpty;
    if stacks == [] {
      assert Drain(stacks) == [] && PageOrder(stacks) == [] by { NoneLeft(); }
    } else {
      assert stacks[0] != [] by { FirstNonEmpty(stacks); }
      PoppedNonEmpty(stacks);
      PopConserves(stacks);
      DrainIsPageOrder(Popped(stacks));
      DrainStep(stacks);
      PageOrderStep(stacks);
    }
  }

  lemma NoneLeft()
    ensures NonEmpty([]) && Drain([]) == [] && PageOrder([]) == []
  {
  }

  lemma FirstNonEmpty(stacks: seq<Stack>)
    requires NonEmpty(stacks) && stacks != []
    ensures stacks[0] != []
  {
  }

  lemma DrainStep(stacks: seq<Stack>)
    requires NonEmpty(stacks) && stacks != []
    ensures NonEmpty(Popped(stacks)) && Drain(stacks) == [Next(stacks)] + Drain(Popped(stacks))
  {
    hide Popped, Next;
    PoppedNonEmpty(stacks);
  }

  lemma PageOrderStep(stacks: seq<Stack>)
    requires stacks != [] && stacks[0] != []
    ensures PageOrder(stacks) == [Next(stacks)] + PageOrder(Popped(stacks))
  {
    hide *;
    var s, n, rest := stacks[0], |stacks[0]| - 1, stacks[1..];
    var x := s[n];
    assert stacks == [s] + rest;
    PageOrderCons(s, rest);
    ReversedLast(s);
    PoppedForm(stacks);
    if n > 0 {
      PageOrderCons(s[..n], rest);
    } else {
      assert s[..n] == [];
      ReversedNone();
    }
    Regroup([x], Reversed(s[..n]), PageOrder(rest));
  }

  lemma Regroup(a: Stack, b: Stack, c: Stack)
    ensures (a + b) + c == a + (b + c)
    ensures b == [] ==> b + c == c
  {
  }

  lemma PoppedForm(stacks: seq<Stack>)
    requires stacks != [] && stacks[0] != []
    ensures var s, n := stacks[0], |stacks[0]| - 1;
      && Next(stacks) == s[n]
      && Popped(stacks) == if n > 0 then [s[..n]] + stacks[1..] else stacks[1..]
  {
  }

  lemma ReversedLast(s: Stack)
    requires s != []
    ensures Reversed(s) == [s[|s| - 1]] + Reversed(s[..|s| - 1])
  {
  }

  lemma ReversedNone()
    ensures Reversed([]) == []
  {
  }

  lemma PageOrderCons(s: Stack, rest: seq<Stack>)
    ensures PageOrder([s] + rest) == Reversed(s) + PageOrder(rest)
  {
    hide Reversed;
    assert ([s] + rest)[1..] == rest;
  }

  lemma {:induction false} PushAllShaped(stacks: seq<Stack>, cap: nat, xs: seq<Item>)
    requires Shaped(stacks, cap) && cap > 0
    ensures Shaped(PushAll(stacks, cap, xs), cap) && NonEmpty(PushAll(stacks, cap, xs))
    decreases |xs|
  {
    if xs != [] {
      PushKeepsShape(stacks, cap, xs[0]);
      PushAllShaped(Pushed(stacks, cap, xs[0]), cap, xs[1..]);
    }
  }

  lemma {:induction false} PageOrderPush(stacks: seq<Stack>, s: Stack)
    ensures PageOrder(stacks + [s]) == PageOrder(stacks) + Reversed(s)
  {
    if stacks == [] {
      assert stacks + [s] == [s] && [s][1..] == [];
    } else {
      assert (stacks + [s])[1..] == stacks[1..] + [s];
      PageOrderPush(stacks[1..], s);
    }
  }

  lemma {:induction false} SinglesInOrder(stacks: seq<Stack>, xs: seq<Item>)
    requires Shaped(stacks, 1)
    ensures PageOrder(PushAll(stacks, 1, xs)) == PageOrder(stacks) + xs
    decreases |xs|
  {
    hide PageOrder, Reversed;
    if xs != [] {
      var x := xs[0];
      PushKeepsShape(stacks, 1, x);
      SinglesInOrder(Pushed(stacks, 1, x), xs[1..]);
      PageOrderPush(stacks, [x]);
      ReversedOne(x);
      assert Pushed(stacks, 1, x) == stacks + [[x]];
      assert xs == [x] + xs[1..];
    }
  }

  lemma ReversedOne(x: Item)
    ensures Reversed([x]) == [x]
  {
    assert [x][..0] == [];
  }

  ghost predicate FirstInFirstOut(cap: nat)
    requires cap > 0
  {
    forall xs {:trigger PushAll([], cap, xs)} :: NonEmpty(PushAll([], cap, xs)) && Drain(PushAll([], cap, xs)) == xs
  }

  /** The Bin is the plain queue its header describes only if a page holds one item. */
  lemma FirstInFirstOutIff(cap: nat)
    requires cap > 0
    ensures FirstInFirstOut(cap) <==> cap == 1
  {
    if cap == 1 {
      forall xs ensures NonEmpty(PushAll([], cap, xs)) && Drain(PushAll([], cap, xs)) == xs {
        PushAllShaped([], cap, xs);
        DrainIsPageOrder(PushAll([], cap, xs));
        SinglesInOrder([], xs);
      }
    } else {
      var a, b := Item(0, 0, 0), Item(1, 0, 0);
      var xs := [a, b];
      PushAllShaped([], cap, xs);
      TwoPushes(cap, a, b);
      DrainIsPageOrder([[a, b]]);
      assert PushAll([], cap, xs) == [[a, b]];
      assert Drain(PushAll([], cap, xs))[0] == b;
    }
  }

  lemma TwoPushes(cap: nat, a: Item, b: Item)
    requires cap >= 2
    ensures PushAll([], cap, [a, b]) == [[a, b]]
  {
    assert [a, b][1..] == [b] && [b][1..] == [];
    assert Pushed([], cap, a) == [[a]];
    assert [[a]][..0] == [] && [a] + [b] == [a, b];
    assert Pushed([[a]], cap, b) == [[a, b]];
    assert PushAll([[a]], cap, [b]) == PushAll([[a, b]], cap, []);
  }

  // ---------------------------------------------------------------------------
  // Runs
  // ---------------------------------------------------------------------------

  datatype Op = Push(item: Item) | Pop

  function Run(stacks: seq<Stack>, cap: nat, ops: seq<Op>): (r: (seq<Stack>, seq<Item>))
    requires cap > 0
    decreases |ops|
  {
    if ops == [] then (stacks, [])
    else
      match ops[0]
      case Push(x) => Run(Pushed(stacks, cap, x), cap, ops[1..])
      case Pop =>
        if stacks == [] || stacks[0] == [] then Run(stacks, cap, ops[1..])
        else
          var (end, out) := Run(Popped(stacks), cap, ops[1..]);
          (end, [Next(stacks)] + out)
  }

  function PushedItems(ops: seq<Op>): seq<Item>
    decreases |ops|
  {
    if ops == [] then [] else (if ops[0].Push? then [ops[0].item] else []) + PushedItems(ops[1..])
  }

  /** Whatever went in came out or is still there, and the shape holds throughout. */
  lemma {:induction false} RunConserves(stacks: seq<Stack>, cap: nat, ops: seq<Op>)
    requires Shaped(stacks, cap) && cap > 0
    ensures Shaped(Run(stacks, cap, ops).0, cap)
    ensures Contents(stacks) + multiset(PushedItems(ops)) ==
      multiset(Run(stacks, cap, ops).1) + Contents(Run(stacks, cap, ops).0)
    decreases |ops|
  {
    hide Shaped, Contents, Popped, Pushed, Next, Run, PushedItems;
    RunStep(stacks, cap, ops);
    if ops != [] {
      match ops[0]
      case Push(x) =>
        PushKeepsShape(stacks, cap, x);
        PushConserves(stacks, cap, x);
        RunConserves(Pushed(stacks, cap, x), cap, ops[1..]);
      case Pop =>
        if stacks == [] || stacks[0] == [] {
          RunConserves(stacks, cap, ops[1..]);
        } else {
          PopKeepsShape(stacks, cap);
          PopConserves(stacks);
          RunConserves(Popped(stacks), cap, ops[1..]);
          var (end, out) := Run(Popped(stacks), cap, ops[1..]);
          Rearrange(Contents(Popped(stacks)), multiset(PushedItems(ops)), multiset(out), Contents(end),
                    multiset{Next(stacks)});
        }
    }
  }

  lemma Rearrange(a: multiset<Item>, b: multiset<Item>, c: multiset<Item>, d: multiset<Item>, x: multiset<Item>)
    requires a + b == c + d
    ensures (a + x) + b == (x + c) + d
  {
    assert (a + x) + b == (a + b) + x;
    assert (x + c) + d == (c + d) + x;
  }

  lemma RunStep(stacks: seq<Stack>, cap: nat, ops: seq<Op>)
    requires cap > 0
    ensures ops == [] ==> Run(stacks, cap, ops) == (stacks, []) && PushedItems(ops) == []
    ensures ops != [] && ops[0].Push? ==>
      && Run(stacks, cap, ops) == Run(Pushed(stacks, cap, ops[0].item), cap, ops[1..])
      && multiset(PushedItems(ops)) == multiset{ops[0].item} + multiset(PushedItems(ops[1..]))
    ensures ops != [] && ops[0].Pop? ==> PushedItems(ops) == PushedItems(ops[1..])
    ensures ops != [] && ops[0].Pop? && (stacks == [] || stacks[0] == []) ==>
      Run(stacks, cap, ops) == Run(stacks, cap, ops[1..])
    ensures ops != [] && ops[0].Pop? && !(stacks == [] || stacks[0] == []) ==>
      && Run(stacks, cap, ops).0 == Run(Popped(stacks), cap, ops[1..]).0
      && multiset(Run(stacks, cap, ops).1) == multiset{Next(stacks)} + multiset(Run(Popped(stacks), cap, ops[1..]).1)
  {
    hide Popped, Pushed, Next;
  }

  // ---------------------------------------------------------------------------
  // The pages
  // ---------------------------------------------------------------------------

  /** One Bin page: the link, the number of items, and room for `cap` of them. */
  datatype Page = Page(next: nat, count: nat, slots: seq<Item>)

  type Pages = map<nat, Page>

  function PageAt(order: seq<nat>, i: nat): nat {
    if i < |order| then order[i] else 0
  }

  predicate Holds(pages: Pages, order: seq<nat>, i: nat, stack: Stack, cap: nat)
    requires i < |order|
  {
    && order[i] != 0 && order[i] in pages
    && var p := pages[order[i]];
    && p.next == PageAt(order, i + 1)
    && |p.slots| == cap && p.count == |stack| <= cap && p.slots[..p.count] == stack
  }

  /** From `head` to `tail` the pages `order` are linked and hold `stacks`. */
  ghost predicate Represents(pages: Pages, head: nat, tail: nat, order: seq<nat>, stacks: seq<Stack>, cap: nat) {
    && |order| == |stacks|
    && (forall i, j :: 0 <= i < j < |order| ==> order[i] != order[j])
    && head == PageAt(order, 0)
    && tail == (if order == [] then 0 else order[|order| - 1])
    && (forall i :: 0 <= i < |order| ==> Holds(pages, order, i, stacks[i], cap))
  }

  function Appended(p: Page, x: Item): Page
    requires p.count < |p.slots|
  {
    p.(count := p.count + 1, slots := p.slots[p.count := x])
  }

  lemma AppendRepresents(pages: Pages, head: nat, tail: nat, order: seq<nat>, stacks: seq<Stack>, cap: nat, x: Item)
    requires Represents(pages, head, tail, order, stacks, cap) && !NeedsPage(stacks, cap)
    ensures tail in pages && pages[tail].count < |pages[tail].slots|
    ensures Represents(pages[tail := Appended(pages[tail], x)], head, tail, order, Pushed(stacks, cap, x), cap)
  {
    var n := |order| - 1;
    assert Holds(pages, order, n, stacks[n], cap);
    var p := pages[tail];
    var pages', stacks' := pages[tail := Appended(p, x)], Pushed(stacks, cap, x);
    assert Appended(p, x).slots[..p.count + 1] == stacks[n] + [x];
    forall i | 0 <= i < |order| ensures Holds(pages', order, i, stacks'[i], cap) {
      assert Holds(pages, order, i, stacks[i], cap);
    }
  }

  function Linked(pages: Pages, tail: nat, fresh': nat): Pages
    requires tail == 0 || tail in pages
  {
    if tail == 0 then pages else pages[tail := pages[tail].(next := fresh')]
  }

  /** A new page with one item behind the tail. */
  lemma ExtendRepresents(pages: Pages, head: nat, tail: nat, order: seq<nat>, stacks: seq<Stack>, cap: nat, x: Item,
                         page: nat, p: Page)
    requires Represents(pages, head, tail, order, stacks, cap) && NeedsPage(stacks, cap)
    requires page != 0 && page !in order && cap > 0 && p == Page(0, 0, p.slots) && |p.slots| == cap
    ensures tail == 0 || tail in pages
    ensures Represents(Linked(pages, tail, page)[page := Appended(p, x)], if head == 0 then page else head, page,
                       order + [page], Pushed(stacks, cap, x), cap)
  {
    var n := |order|;
    if n > 0 {
      assert Holds(pages, order, n - 1, stacks[n - 1], cap);
      assert Holds(pages, order, 0, stacks[0], cap);
    }
    var pages' := Linked(pages, tail, page)[page := Appended(p, x)];
    var order', stacks' := order + [page], Pushed(stacks, cap, x);
    assert Appended(p, x).slots[..1] == [x];
    forall i | 0 <= i < |order'| ensures Holds(pages', order', i, stacks'[i], cap) {
      if i < n {
        assert Holds(pages, order, i, stacks[i], cap);
      }
    }
  }

  lemma TakeRepresents(pages: Pages, head: nat, tail: nat, order: seq<nat>, stacks: seq<Stack>, cap: nat)
    requires Represents(pages, head, tail, order, stacks, cap) && stacks != [] && |stacks[0]| > 1
    ensures head in pages && pages[head].count > 0
    ensures Represents(pages[head := pages[head].(count := pages[head].count - 1)], head, tail, order,
                       Popped(stacks), cap)
  {
    assert Holds(pages, order, 0, stacks[0], cap);
    var pages' := pages[head := pages[head].(count := pages[head].count - 1)];
    forall i | 0 <= i < |order| ensures Holds(pages', order, i, Popped(stacks)[i], cap) {
      assert Holds(pages, order, i, stacks[i], cap);
    }
  }

  lemma DrainRepresents(pages: Pages, head: nat, tail: nat, order: seq<nat>, stacks: seq<Stack>, cap: nat)
    requires Represents(pages, head, tail, order, stacks, cap) && stacks != [] && |stacks[0]| == 1
    ensures head in pages && order != []
    ensures Represents(pages - {head}, pages[head].next, if tail == head then pages[head].next else tail,
                       order[1..], Popped(stacks), cap)
  {
    assert Holds(pages, order, 0, stacks[0], cap);
    var order', stacks' := order[1..], Popped(stacks);
    forall i | 0 <= i < |order'| ensures Holds(pages - {head}, order', i, stacks'[i], cap) {
      assert Holds(pages, order, i + 1, stacks[i + 1], cap);
    }
  }

  class Bin {
    const cap: nat
    var head: nat
    var tail: nat
    var count: nat
    var pages: Pages
    ghost var order: seq<nat>
    ghost var stacks: seq<Stack>

    ghost predicate Valid()
      reads this
    {
      cap > 0 && Represents(pages, head, tail, order, stacks, cap) && Shaped(stacks, cap) && count == Total(stacks)
    }

    constructor (pageSize: nat)
      requires pageSize >= 40
      ensures Valid() && stacks == [] && cap == (pageSize - 16) / 24
    {
      cap := (pageSize - 16) / 24;
      head, tail, count, pages, order, stacks := 0, 0, 0, map[], [], [];
    }

    /** `spare` is the page the allocator would hand out, 0 if it cannot. */
    method Push(x: Item, spare: nat) returns (ok: bool)
      requires Valid() && spare !in order
      modifies this
      ensures Valid()
      ensures ok == (!NeedsPage(old(stacks), cap) || spare != 0)
      ensures stacks == if ok then Pushed(old(stacks), cap, x) else old(stacks)
    {
      hide Represents, Holds, Shaped, Total;
      ghost var was := stacks;
      PushKeepsShape(stacks, cap, x);
      PushConserves(stacks, cap, x);
      TailFull(pages, head, tail, order, stacks, cap);
      if tail != 0 && pages[tail].count < cap {
        AppendRepresents(pages, head, tail, order, stacks, cap, x);
        pages := pages[tail := Appended(pages[tail], x)];
      } else {
        if spare == 0 {
          return false;
        }
        var page := Page(0, 0, seq(cap, _ => Item(0, 0, 0)));
        ExtendRepresents(pages, head, tail, order, stacks, cap, x, spare, page);
        pages := Linked(pages, tail, spare);
        tail := spare;
        if head == 0 {
          head := spare;
        }
        pages := pages[spare := Appended(page, x)];
        order := order + [spare];
      }
      count := count + 1;
      stacks := Pushed(was, cap, x);
      return true;
    }

    method Peek() returns (r: Option<Item>)
      requires Valid()
      ensures r == if stacks == [] then None else Some(Next(stacks))
    {
      if count == 0 || head == 0 {
        return None;
      }
      assert Holds(pages, order, 0, stacks[0], cap);
      var p := pages[head];
      if p.count == 0 {
        return None;
      }
      return Some(p.slots[p.count - 1]);
    }

    method Pop() returns (r: Option<Item>)
      requires Valid()
      modifies this
      ensures Valid()
      ensures r == if old(stacks) == [] then None else Some(Next(old(stacks)))
      ensures stacks == if old(stacks) == [] then [] else Popped(old(stacks))
    {
      hide Represents, Holds, Shaped, Total, Popped, Next;
      r := Peek();
      if r.None? {
        return;
      }
      HeadCount(pages, head, tail, order, stacks, cap);
      PopKeepsShape(stacks, cap);
      PopConserves(stacks);
      count := count - 1;
      if pages[head].count == 1 {
        DrainRepresents(pages, head, tail, order, stacks, cap);
        var next := pages[head].next;
        if tail == head {
          tail := next;
        }
        pages := pages - {head};
        head := next;
        order := order[1..];
      } else {
        TakeRepresents(pages, head, tail, order, stacks, cap);
        pages := pages[head := pages[head].(count := pages[head].count - 1)];
      }
      stacks := Popped(stacks);
    }
  }

  lemma TailFull(pages: Pages, head: nat, tail: nat, order: seq<nat>, stacks: seq<Stack>, cap: nat)
    requires Represents(pages, head, tail, order, stacks, cap)
    ensures tail != 0 ==> tail in pages
    ensures NeedsPage(stacks, cap) <==> tail == 0 || pages[tail].count >= cap
  {
    if order != [] {
      var n := |order| - 1;
      assert Holds(pages, order, n, stacks[n], cap);
    }
  }

  lemma HeadCount(pages: Pages, head: nat, tail: nat, order: seq<nat>, stacks: seq<Stack>, cap: nat)
    requires Represents(pages, head, tail, order, stacks, cap) && stacks != [] && Shaped(stacks, cap)
    ensures head in pages && pages[head].count == |stacks[0]| > 0
  {
    assert Holds(pages, order, 0, stacks[0], cap);
  }
}
