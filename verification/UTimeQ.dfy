/** The queue of callbacks ordered by a tick counter that wraps around (modutimeq.c). */
module UTimeQ {
  import opened Heaps

  const WORD: nat := 0x1_0000_0000
  const PERIOD: nat := 0x4000_0000      // of the tick counter
  const HALF: nat := 0x2000_0000

  type Word = w: nat | w < 0x1_0000_0000

  type Obj = nat

  datatype Entry = Entry(time: Word, id: Word, callback: Obj, args: Obj)

  /** time_less_than, in unsigned words. */
  predicate TimeLess(item: Entry, parent: Entry) {
    var res: int := if parent.time >= item.time then parent.time - item.time else parent.time - item.time + WORD;
    if res == 0 then item.id < parent.id
    else
      var res' := if res >= WORD / 2 then (res + PERIOD) % WORD else res;
      res' != 0 && res' < HALF
  }

  // ---------- What the comparison means ----------

  /** How many ticks after base a time is. */
  function Offset(base: nat, t: nat): nat
    requires base < PERIOD && t < PERIOD
  {
    if t >= base then t - base else t - base + PERIOD
  }

  /** The entry's time is a tick count, less than half a period after base. */
  ghost predicate InWindow(e: Entry, base: nat) {
    base < PERIOD && e.time < PERIOD && Offset(base, e.time) < HALF
  }

  ghost function Window(base: nat): Entry -> bool {
    e => InWindow(e, base)
  }

  /** Earlier, or pushed first for the same tick. */
  ghost predicate Before(a: Entry, b: Entry, base: nat)
    requires InWindow(a, base) && InWindow(b, base)
  {
    Offset(base, a.time) < Offset(base, b.time) || (a.time == b.time && a.id < b.id)
  }

  lemma TimeLessIsBefore(a: Entry, b: Entry, base: nat)
    requires InWindow(a, base) && InWindow(b, base)
    ensures TimeLess(a, b) <==> Before(a, b, base)
  {
  }

  lemma WindowIsOrdered(base: nat)
    ensures WeakOrder(TimeLess, Window(base))
  {
    hide TimeLess;
    forall a, b | Window(base)(a) && Window(base)(b) ensures !TimeLess(a, b) || !TimeLess(b, a) {
      TimeLessIsBefore(a, b, base);
      TimeLessIsBefore(b, a, base);
    }
    forall a, b, c | Window(base)(a) && Window(base)(b) && Window(base)(c) && Le(TimeLess, a, b) && Le(TimeLess, b, c)
      ensures Le(TimeLess, a, c)
    {
      TimeLessIsBefore(b, a, base);
      TimeLessIsBefore(c, b, base);
      TimeLessIsBefore(c, a, base);
    }
  }

  /** No two entries have the same id. */
  ghost predicate DistinctIds(m: multiset<Entry>) {
    && (forall e | e in m :: m[e] == 1)
    && (forall e, f | e in m && f in m && e.id == f.id :: e == f)
  }

  ghost predicate NumberedBelow(m: multiset<Entry>, next: nat) {
    DistinctIds(m) && forall e | e in m :: e.id < next
  }

  ghost predicate StrictTotal(m: multiset<Entry>) {
    && (forall a, b | a in m && b in m :: !TimeLess(a, b) || !TimeLess(b, a))
    && (forall a, b | a in m && b in m && a != b :: TimeLess(a, b) || TimeLess(b, a))
    && (forall a, b, c | a in m && b in m && c in m :: TimeLess(a, b) && TimeLess(b, c) ==> TimeLess(a, c))
  }

  ghost predicate AllInWindow(m: multiset<Entry>, base: nat) {
    forall e | e in m :: InWindow(e, base)
  }

  /** The comparison orders the entries exactly when their times fit in half a period. */
  lemma TotalIffWindow(m: multiset<Entry>)
    requires DistinctIds(m) && m != multiset{} && forall e | e in m :: e.time < PERIOD
    ensures StrictTotal(m) <==> exists base :: AllInWindow(m, base)
  {
    hide TimeLess, InWindow, DistinctIds;
    if StrictTotal(m) {
      var e := LeastOf(m);
      forall f | f in m ensures InWindow(f, e.time) {
        LaterIsInWindow(e, f);
      }
      assert AllInWindow(m, e.time);
    }
    if base :| AllInWindow(m, base) {
      TotalInWindow(m, base);
    }
  }

  /** Three times that go once around the period: each is before the next, and the last before the
      first. */
  lemma AroundThePeriod(callback: Obj, args: Obj) returns (a: Entry, b: Entry, c: Entry)
    ensures a.time < b.time < c.time < PERIOD
    ensures TimeLess(a, b) && TimeLess(b, c) && TimeLess(c, a)
    ensures !StrictTotal(multiset{a, b, c})
  {
    a := Entry(0, 0, callback, args);
    b := Entry(0x1555_5555, 1, callback, args);
    c := Entry(0x2aaa_aaaa, 2, callback, args);
    assert TimeLess(a, b) && TimeLess(b, c) && TimeLess(c, a);
    var m := multiset{a, b, c};
    assert a in m && b in m && c in m;
  }

  lemma LaterIsInWindow(e: Entry, f: Entry)
    requires e.time < PERIOD && f.time < PERIOD
    ensures f == e || TimeLess(e, f) ==> InWindow(f, e.time)
  {
  }

  lemma TotalInWindow(m: multiset<Entry>, base: nat)
    requires DistinctIds(m) && AllInWindow(m, base)
    ensures StrictTotal(m)
  {
    hide TimeLess;
    forall a, b | a in m && b in m ensures TimeLess(a, b) <==> Before(a, b, base) {
      TimeLessIsBefore(a, b, base);
    }
  }

  lemma {:induction false} LeastOf(m: multiset<Entry>) returns (e: Entry)
    requires StrictTotal(m) && m != multiset{}
    ensures e in m && forall f | f in m && f != e :: TimeLess(e, f)
    decreases |m|
  {
    hide StrictTotal, TimeLess;
    var x :| x in m;
    var rest := m - multiset{x};
    assert forall f | f in m :: f == x || f in rest;
    if rest == multiset{} {
      e := x;
    } else {
      TotalShrinks(m, rest);
      e := LeastOf(rest);
      if e != x {
        TotalPair(m, x, e);
      }
      if e != x && TimeLess(x, e) {
        forall f | f in rest && f != e ensures TimeLess(x, f) {
          TotalChain(m, x, e, f);
        }
        e := x;
      }
    }
  }

  lemma TotalShrinks(m: multiset<Entry>, rest: multiset<Entry>)
    requires StrictTotal(m) && rest <= m
    ensures StrictTotal(rest)
  {
    hide TimeLess;
    assert forall e | e in rest :: e in m;
  }

  lemma TotalPair(m: multiset<Entry>, a: Entry, b: Entry)
    requires StrictTotal(m) && a in m && b in m && a != b
    ensures TimeLess(a, b) || TimeLess(b, a)
  {
    hide TimeLess;
  }

  lemma TotalChain(m: multiset<Entry>, a: Entry, b: Entry, c: Entry)
    requires StrictTotal(m) && a in m && b in m && c in m && TimeLess(a, b) && TimeLess(b, c)
    ensures TimeLess(a, c)
  {
    hide TimeLess;
  }

  // ---------- The queue ----------

  /** The ids that all queues draw from. */
  class Ids {
    var next: Word
    constructor ()
      ensures next == 0
    {
      next := 0;
    }

    /** utimeq_id++ */
    method Next() returns (id: Word)
      modifies this
      ensures id == old(next) && next == (id + 1) % WORD
    {
      id := next;
      next := (next + 1) % WORD;
    }
  }

  datatype Pushed = Done | Overflow
  datatype Popped = Item(e: Entry) | Empty

  class Queue {
    const ids: Ids
    const items: array<Entry>
    var len: nat

    ghost predicate Valid()
      reads this
    {
      len <= items.Length
    }

    ghost function Contents(): seq<Entry>
      requires Valid()
      reads this, items
    {
      items[..len]
    }

    /** The ids have not wrapped: those in the queue are distinct, and all before the next one. */
    ghost predicate Numbered()
      requires Valid()
      reads this, items, ids
    {
      NumberedBelow(multiset(Contents()), ids.next)
    }

    /** A heap of entries whose times lie within half a period of base. */
    ghost predicate IsHeap(base: nat)
      requires Valid()
      reads this, items
    {
      Within(Contents(), Window(base)) && Heap(Contents(), TimeLess)
    }

    constructor (alloc: nat, ids: Ids)
      ensures Valid() && Contents() == [] && items.Length == alloc && this.ids == ids && fresh(items)
    {
      this.ids := ids;
      items := new Entry[alloc](_ => Entry(0, 0, 0, 0));
      len := 0;
    }

    method Push(time: int, callback: Obj, args: Obj, ghost base: nat) returns (r: Pushed)
      requires Valid()
      modifies this, items, ids
      ensures Valid()
      ensures r.Overflow? <==> old(len) == items.Length
      ensures r.Overflow? ==> Contents() == old(Contents()) && ids.next == old(ids.next)
      ensures r.Done? ==> ids.next == (old(ids.next) + 1) % WORD
      ensures r.Done? ==> multiset(Contents())
                          == multiset(old(Contents())) + multiset{Entry(time % WORD, old(ids.next), callback, args)}
      ensures r.Done? ==> old(IsHeap(base)) && InWindow(Entry(time % WORD, old(ids.next), callback, args), base) ==> IsHeap(base)
      ensures old(Numbered()) && old(ids.next) + 1 < WORD ==> Numbered()
    {
      hide NumberedBelow, InWindow, IsHeap;
      if len == items.Length {
        return Overflow;
      }
      ghost var s := Contents();
      var id := ids.Next();
      var e := Entry(time % WORD, id, callback, args);
      Insert(e, base);
      NumberedGrows(s, e);
      assert multiset(s + [e]) == multiset(Contents());
      r := Done;
    }

    /** The entry goes in after the last one and sifts up. */
    method Insert(e: Entry, ghost base: nat)
      requires Valid() && len < items.Length
      modifies `len, items
      ensures Valid() && len == old(len) + 1
      ensures multiset(Contents()) == multiset(old(Contents())) + multiset{e}
      ensures old(IsHeap(base)) && InWindow(e, base) ==> IsHeap(base)
    {
      ghost var s := Contents();
      items[len] := e;
      assert items[..len] == s && items[..len + 1] == s + [e];
      WindowIsOrdered(base);
      WithinGrows(s, e, Window(base));
      hide WeakOrder, Within, Heap, TimeLess, InWindow;
      SiftLast(items, len + 1, TimeLess, Window(base));
      len := len + 1;
    }

    /** pop takes the earliest entry, the one pushed first among those of the same tick. */
    method Pop(ghost base: nat) returns (r: Popped)
      requires Valid()
      modifies this, items
      ensures Valid() && (r.Empty? <==> old(len) == 0)
      ensures r.Empty? ==> Contents() == old(Contents())
      ensures r.Item? ==> r.e == old(Contents())[0] && multiset(old(Contents())) == multiset(Contents()) + multiset{r.e}
      ensures old(IsHeap(base)) ==> IsHeap(base)
      ensures old(Numbered()) ==> Numbered()
      ensures r.Item? && old(IsHeap(base)) && old(Numbered()) ==> (
                InWindow(r.e, base) && forall f | f in Contents() :: InWindow(f, base) && Before(r.e, f, base))
    {
      if len == 0 {
        return Empty;
      }
      ghost var s := Contents();
      var e := items[0];
      WindowIsOrdered(base);
      hide WeakOrder, Within, HeapFrom, Heap, NumberedBelow, TimeLess, InWindow, Before;
      RemoveRoot(items, len, TimeLess, Window(base));
      len := len - 1;
      FewerItems(s, Contents(), e);
      NumberedShrinks(multiset(s), multiset(Contents()), e, ids.next);
      if old(IsHeap(base)) && old(Numbered()) {
        PoppedIsFirst(s, Contents(), base);
      }
      r := Item(e);
    }

    /** peektime shows the entry that pop would take: the earliest, and the one pushed first among
        those of the same tick. */
    method PeekTime(ghost base: nat) returns (r: Popped)
      requires Valid()
      ensures r == if Contents() == [] then Empty else Item(Contents()[0])
      ensures r.Item? && IsHeap(base) && Numbered() ==> (
                InWindow(r.e, base) && forall f | f in Contents() :: InWindow(f, base) && (f == r.e || Before(r.e, f, base)))
    {
      if len == 0 {
        return Empty;
      }
      ghost var s := Contents();
      hide Within, HeapFrom, Heap, NumberedBelow, TimeLess, InWindow, Before;
      if IsHeap(base) && Numbered() {
        FirstOfHeap(s, base, ids.next);
      }
      r := Item(items[0]);
    }
  }

  lemma PoppedIsFirst(s: seq<Entry>, rest: seq<Entry>, base: nat)
    requires s != [] && Within(s, Window(base)) && Heap(s, TimeLess)
    requires forall f | f in rest :: f in s && f.id != s[0].id
    ensures InWindow(s[0], base) && forall f | f in rest :: InWindow(f, base) && Before(s[0], f, base)
  {
    WindowIsOrdered(base);
    PoppedIsLeast(s, TimeLess, Window(base));
    hide WeakOrder, Within, Heap, TimeLess;
    assert Window(base)(s[0]);
    forall f | f in rest ensures InWindow(f, base) && Before(s[0], f, base) {
      assert Window(base)(f) && Le(TimeLess, s[0], f);
      TimeLessIsBefore(f, s[0], base);
    }
  }

  lemma FirstOfHeap(s: seq<Entry>, base: nat, next: nat)
    requires s != [] && Within(s, Window(base)) && Heap(s, TimeLess) && NumberedBelow(multiset(s), next)
    ensures InWindow(s[0], base) && forall f | f in s :: InWindow(f, base) && (f == s[0] || Before(s[0], f, base))
  {
    hide Within, HeapFrom, Heap, NumberedBelow, TimeLess, InWindow, Before;
    assert s == [s[0]] + s[1..];
    NumberedShrinks(multiset(s), multiset(s[1..]), s[0], next);
    PoppedIsFirst(s, s[1..], base);
  }

  lemma NumberedGrows(s: seq<Entry>, e: Entry)
    ensures NumberedBelow(multiset(s), e.id) ==> NumberedBelow(multiset(s + [e]), e.id + 1)
  {
    assert multiset(s + [e]) == multiset(s) + multiset{e};
  }

  lemma NumberedShrinks(m: multiset<Entry>, rest: multiset<Entry>, e: Entry, next: nat)
    requires m == rest + multiset{e}
    ensures NumberedBelow(m, next) ==> NumberedBelow(rest, next) && forall f | f in rest :: f.id != e.id
  {
    if NumberedBelow(m, next) {
      forall f | f in rest ensures f in m && rest[f] == 1 && f.id != e.id {
        assert m[f] == 1 && e in m;
      }
    }
  }
}
