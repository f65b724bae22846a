/** The binary heap in an array that moduheapq.c and modutimeq.c share in shape: a pop lets the
    hole sink to a leaf, then sifts the item back up from there. */
module Heaps {

  function Parent(i: nat): nat
    requires i > 0
  {
    (i - 1) / 2
  }

  predicate Le<T>(lt: (T, T) -> bool, a: T, b: T) {
    !lt(b, a)
  }

  /** On the items of dom, "not less in the other direction" is total and transitive. */
  ghost predicate WeakOrder<T(!new)>(lt: (T, T) -> bool, dom: T -> bool) {
    && (forall a, b {:trigger lt(a, b)} | dom(a) && dom(b) :: !lt(a, b) || !lt(b, a))
    && (forall a, b, c {:trigger Le(lt, a, b), Le(lt, b, c)} | dom(a) && dom(b) && dom(c) ::
          Le(lt, a, b) && Le(lt, b, c) ==> Le(lt, a, c))
  }

  ghost predicate Within<T(!new)>(s: seq<T>, dom: T -> bool) {
    forall i | 0 <= i < |s| :: dom(s[i])
  }

  /** Below position k no item is less than its parent. */
  ghost predicate HeapFrom<T(!new)>(s: seq<T>, k: nat, lt: (T, T) -> bool) {
    forall i | 0 < i < |s| && Parent(i) >= k :: Le(lt, s[Parent(i)], s[i])
  }

  ghost predicate Heap<T(!new)>(s: seq<T>, lt: (T, T) -> bool) {
    HeapFrom(s, 0, lt)
  }

  /** The same, leaving out how the item at pos stands to its own parent. */
  ghost predicate HeapExcept<T(!new)>(s: seq<T>, k: nat, pos: nat, lt: (T, T) -> bool) {
    forall i | 0 < i < |s| && Parent(i) >= k && i != pos :: Le(lt, s[Parent(i)], s[i])
  }

  predicate Descends(start: nat, pos: nat) {
    pos == start || (pos > start && Descends(start, Parent(pos)))
  }

  lemma {:induction false} AllDescendFromRoot(pos: nat)
    ensures Descends(0, pos)
  {
    if pos > 0 {
      AllDescendFromRoot(Parent(pos));
    }
  }

  lemma {:induction false} RootIsLeast<T(!new)>(s: seq<T>, i: nat, lt: (T, T) -> bool, dom: T -> bool)
    requires WeakOrder(lt, dom) && Within(s, dom) && Heap(s, lt) && i < |s|
    ensures Le(lt, s[0], s[i])
  {
    if i == 0 {
      assert dom(s[0]);
    } else {
      RootIsLeast(s, Parent(i), lt, dom);
      assert Le(lt, s[Parent(i)], s[i]) && dom(s[0]) && dom(s[i]) && dom(s[Parent(i)]);
    }
  }

  lemma MoveHole<T>(s: seq<T>, hole: nat, from: nat, item: T)
    requires hole < |s| && from < |s| && hole != from
    ensures multiset(s[hole := s[from]][from := item]) == multiset(s[hole := item])
  {
  }

  // ---------- Letting the hole sink ----------

  /** While the hole sinks from start, only start itself may still hold the item being replaced. */
  ghost predicate Sinking<T(!new)>(s: seq<T>, start: nat, pos: nat, lt: (T, T) -> bool) {
    HeapFrom(s, if pos == start then start + 1 else start, lt)
  }

  lemma Sink<T(!new)>(s: seq<T>, start: nat, pos: nat, c: nat, lt: (T, T) -> bool, dom: T -> bool)
    requires WeakOrder(lt, dom) && Within(s, dom) && Sinking(s, start, pos, lt) && start <= pos
    requires pos < c < |s| && Parent(c) == pos
    requires forall i | 0 < i < |s| && Parent(i) == pos :: Le(lt, s[c], s[i])
    ensures var s' := s[pos := s[c]]; Within(s', dom) && Sinking(s', start, c, lt)
  {
    var s' := s[pos := s[c]];
    forall i | 0 < i < |s| && Parent(i) >= start ensures Le(lt, s'[Parent(i)], s'[i]) {
      if i == pos {
        assert Le(lt, s[Parent(i)], s[pos]) && Le(lt, s[pos], s[c]) && dom(s[Parent(i)]) && dom(s[pos]) && dom(s[c]);
      }
    }
  }

  lemma SinkEnds<T(!new)>(s: seq<T>, start: nat, pos: nat, item: T, lt: (T, T) -> bool)
    requires Sinking(s, start, pos, lt) && start <= pos < |s| <= 2 * pos + 1
    ensures HeapExcept(s[pos := item], start, pos, lt)
  {
  }

  // ---------- Sifting back ----------

  /** While an item sifts up from the leaf it was put in, either it has not moved, or it is less
      than what stands where it would go. */
  ghost predicate Rising<T(!new)>(s: seq<T>, start: nat, leaf: nat, pos: nat, item: T, lt: (T, T) -> bool)
    requires pos < |s|
  {
    if pos == leaf then HeapExcept(s, start, pos, lt) && |s| <= 2 * pos + 1
    else HeapFrom(s, start, lt) && lt(item, s[pos])
  }

  lemma Rise<T(!new)>(s: seq<T>, start: nat, leaf: nat, pos: nat, item: T, lt: (T, T) -> bool, dom: T -> bool)
    requires WeakOrder(lt, dom) && Within(s, dom)
    requires start < pos <= leaf < |s| && Rising(s, start, leaf, pos, item, lt)
    requires Parent(pos) >= start && lt(item, s[Parent(pos)])
    ensures var s' := s[pos := s[Parent(pos)]]; Within(s', dom) && Rising(s', start, leaf, Parent(pos), item, lt)
  {
    var s', p := s[pos := s[Parent(pos)]], Parent(pos);
    forall i | 0 < i < |s| && Parent(i) >= start ensures Le(lt, s'[Parent(i)], s'[i]) {
      if i == pos {
        assert dom(s[p]);
      } else if Parent(i) == pos {
        assert Le(lt, s[p], s[pos]) && Le(lt, s[pos], s[i]) && dom(s[p]) && dom(s[pos]) && dom(s[i]);
      }
    }
  }

  /** The hole is at pos, on the item's way up from the leaf towards start. */
  ghost predicate OnTheWay<T(!new)>(s: seq<T>, start: nat, leaf: nat, pos: nat, item: T, lt: (T, T) -> bool, dom: T -> bool) {
    && start <= pos <= leaf < |s| && Descends(start, pos)
    && WeakOrder(lt, dom) && Within(s, dom) && dom(item)
    && Rising(s, start, leaf, pos, item, lt)
  }

  lemma WayBegins<T(!new)>(s: seq<T>, start: nat, leaf: nat, lt: (T, T) -> bool, dom: T -> bool)
    requires start <= leaf < |s| && WeakOrder(lt, dom) && Within(s, dom) && Descends(start, leaf)
    requires |s| <= 2 * leaf + 1 && HeapExcept(s, start, leaf, lt)
    ensures OnTheWay(s, start, leaf, leaf, s[leaf], lt, dom)
  {
    hide WeakOrder, HeapExcept;
  }

  lemma WayGoesOn<T(!new)>(s: seq<T>, start: nat, leaf: nat, pos: nat, item: T, lt: (T, T) -> bool, dom: T -> bool)
    requires OnTheWay(s, start, leaf, pos, item, lt, dom) && pos > start && lt(item, s[Parent(pos)])
    ensures OnTheWay(s[pos := s[Parent(pos)]], start, leaf, Parent(pos), item, lt, dom)
  {
    DescendsStep(start, pos);
    hide WeakOrder, Within, Rising, Descends;
    Rise(s, start, leaf, pos, item, lt, dom);
  }

  lemma DescendsStep(start: nat, pos: nat)
    requires Descends(start, pos) && pos > start
    ensures start <= Parent(pos) && Descends(start, Parent(pos))
  {
  }

  lemma WayEnds<T(!new)>(s: seq<T>, start: nat, leaf: nat, pos: nat, item: T, lt: (T, T) -> bool, dom: T -> bool)
    requires OnTheWay(s, start, leaf, pos, item, lt, dom)
    requires pos == start || !lt(item, s[Parent(pos)])
    ensures HeapFrom(s[pos := item], start, lt)
  {
    hide WeakOrder, Within, Rising, Descends;
    RiseEnds(s, start, leaf, pos, item, lt, dom);
  }

  lemma RiseEnds<T(!new)>(s: seq<T>, start: nat, leaf: nat, pos: nat, item: T, lt: (T, T) -> bool, dom: T -> bool)
    requires WeakOrder(lt, dom) && Within(s, dom) && dom(item)
    requires start <= pos <= leaf < |s| && Rising(s, start, leaf, pos, item, lt)
    requires pos == start || !lt(item, s[Parent(pos)])
    ensures HeapFrom(s[pos := item], start, lt)
  {
    var s' := s[pos := item];
    forall i | 0 < i < |s| && Parent(i) >= start ensures Le(lt, s'[Parent(i)], s'[i]) {
      if Parent(i) == pos {
        assert Le(lt, item, s[pos]) && Le(lt, s[pos], s[i]) && dom(s[pos]) && dom(s[i]);
      }
    }
  }

  // ---------- The two loops ----------

  method Put<T>(a: array<T>, len: nat, i: nat, x: T)
    requires i < len <= a.Length
    modifies a
    ensures a[..len] == old(a[..len])[i := x] && a[len..] == old(a[len..])
  {
    a[i] := x;
  }

  /** Siftdown: the item at pos goes up as far as start while it is less than its parent. Nothing
      but the order changes; and if only that item, on a leaf, was out of place, none is now. */
  method Siftdown<T(!new)>(a: array<T>, len: nat, start: nat, pos: nat, lt: (T, T) -> bool, ghost dom: T -> bool)
    requires start <= pos < len <= a.Length
    modifies a
    ensures multiset(a[..len]) == multiset(old(a[..len])) && a[len..] == old(a[len..])
    ensures WeakOrder(lt, dom) && Within(old(a[..len]), dom) && Descends(start, pos)
            && len <= 2 * pos + 1 && HeapExcept(old(a[..len]), start, pos, lt)
            ==> HeapFrom(a[..len], start, lt)
  {
    ghost var s0 := a[..len];
    ghost var good := WeakOrder(lt, dom) && Within(s0, dom) && Descends(start, pos)
                      && len <= 2 * pos + 1 && HeapExcept(s0, start, pos, lt);
    hide WeakOrder, Within, HeapFrom, HeapExcept, OnTheWay, Descends;
    var item := a[pos];
    var p := pos;
    assert s0[pos := item] == s0;
    if good {
      WayBegins(s0, start, pos, lt, dom);
    }
    while p > start
      invariant p <= pos
      invariant multiset(a[..len][p := item]) == multiset(s0) && a[len..] == old(a[len..])
      invariant good ==> OnTheWay(a[..len], start, pos, p, item, lt, dom)
    {
      var parentPos := (p - 1) / 2;
      ghost var s := a[..len];
      var parent := a[parentPos];
      if lt(item, parent) {
        MoveHole(s, p, parentPos, item);
        if good {
          WayGoesOn(s, start, pos, p, item, lt, dom);
        }
        Put(a, len, p, parent);
        p := parentPos;
      } else {
        break;
      }
    }
    if good {
      WayEnds(a[..len], start, pos, p, item, lt, dom);
    }
    Put(a, len, p, item);
  }

  /** The smaller child, the right one when neither is. */
  method ChooseChild<T(!new)>(a: array<T>, len: nat, p: nat, lt: (T, T) -> bool) returns (childPos: nat)
    requires 2 * p + 1 < len <= a.Length
    ensures p < childPos < len && Parent(childPos) == p
    ensures childPos == 2 * p + 1 || (childPos == 2 * p + 2 && !lt(a[2 * p + 1], a[childPos]))
    ensures childPos == 2 * p + 1 && childPos + 1 < len ==> lt(a[childPos], a[childPos + 1])
  {
    childPos := 2 * p + 1;
    if childPos + 1 < len && !lt(a[childPos], a[childPos + 1]) {
      childPos := childPos + 1;
    }
  }

  /** The first loop of siftup: the hole goes to a leaf, the smaller child moving up each time. */
  method SinkToLeaf<T(!new)>(a: array<T>, len: nat, startPos: nat, item: T, lt: (T, T) -> bool, ghost dom: T -> bool, ghost good: bool)
    returns (p: nat)
    requires startPos < len <= a.Length
    requires good ==> WeakOrder(lt, dom) && Within(a[..len], dom) && Sinking(a[..len], startPos, startPos, lt)
    modifies a
    ensures startPos <= p < len <= 2 * p + 1 && Descends(startPos, p) && a[len..] == old(a[len..])
    ensures multiset(a[..len][p := item]) == multiset(old(a[..len])[startPos := item])
    ensures good ==> Within(a[..len], dom) && Sinking(a[..len], startPos, p, lt)
  {
    p := startPos;
    hide WeakOrder, Within, HeapFrom, HeapExcept, Sinking;
    while 2 * p + 1 < len
      invariant startPos <= p < len && Descends(startPos, p) && a[len..] == old(a[len..])
      invariant multiset(a[..len][p := item]) == multiset(old(a[..len])[startPos := item])
      invariant good ==> Within(a[..len], dom) && Sinking(a[..len], startPos, p, lt)
      decreases len - p
    {
      var childPos := ChooseChild(a, len, p, lt);
      MoveHole(a[..len], p, childPos, item);
      if good {
        SmallerChild(a[..len], p, childPos, lt, dom);
        Sink(a[..len], startPos, p, childPos, lt, dom);
      }
      Put(a, len, p, a[childPos]);
      p := childPos;
    }
  }

  /** Siftup: the item at pos goes to a leaf, the smaller child moving up at every level, and sifts
      back. If everything below pos was in order, everything from pos on is. */
  method Siftup<T(!new)>(a: array<T>, len: nat, pos: nat, lt: (T, T) -> bool, ghost dom: T -> bool)
    requires pos < len <= a.Length
    modifies a
    ensures multiset(a[..len]) == multiset(old(a[..len])) && a[len..] == old(a[len..])
    ensures WeakOrder(lt, dom) && Within(old(a[..len]), dom) && HeapFrom(old(a[..len]), pos + 1, lt)
            ==> HeapFrom(a[..len], pos, lt)
  {
    ghost var s0 := a[..len];
    ghost var good := WeakOrder(lt, dom) && Within(s0, dom) && HeapFrom(s0, pos + 1, lt);
    assert good ==> Sinking(s0, pos, pos, lt);
    hide WeakOrder, Within, HeapFrom, HeapExcept, Sinking;
    var item := a[pos];
    assert s0[pos := item] == s0;
    var p := SinkToLeaf(a, len, pos, item, lt, dom, good);
    if good {
      SinkEnds(a[..len], pos, p, item, lt);
      PutWithin(a[..len], s0, p, pos, dom);
    }
    Put(a, len, p, item);
    Siftdown(a, len, pos, p, lt, dom);
  }

  lemma PutWithin<T(!new)>(s: seq<T>, s0: seq<T>, p: nat, pos: nat, dom: T -> bool)
    requires p < |s| && pos < |s0| && Within(s, dom) && Within(s0, dom)
    ensures Within(s[p := s0[pos]], dom)
  {
  }

  lemma SmallerChild<T(!new)>(s: seq<T>, pos: nat, c: nat, lt: (T, T) -> bool, dom: T -> bool)
    requires WeakOrder(lt, dom) && Within(s, dom) && pos < c < |s|
    requires c == 2 * pos + 1 || (c == 2 * pos + 2 && !lt(s[2 * pos + 1], s[c]))
    requires c == 2 * pos + 1 && c + 1 < |s| ==> lt(s[c], s[c + 1])
    ensures forall i | 0 < i < |s| && Parent(i) == pos :: Le(lt, s[c], s[i])
  {
    forall i | 0 < i < |s| && Parent(i) == pos ensures Le(lt, s[c], s[i]) {
      assert i == 2 * pos + 1 || i == 2 * pos + 2;
      assert dom(s[c]) && dom(s[i]);
    }
  }

  lemma PushedAtEnd<T(!new)>(s: seq<T>, x: T, lt: (T, T) -> bool, dom: T -> bool)
    ensures Heap(s, lt) ==> HeapExcept(s + [x], 0, |s|, lt)
  {
  }

  lemma WithinGrows<T(!new)>(s: seq<T>, x: T, dom: T -> bool)
    ensures Within(s + [x], dom) <==> Within(s, dom) && dom(x)
  {
    if Within(s + [x], dom) {
      assert forall i | 0 <= i < |s| :: s[i] == (s + [x])[i];
      assert dom((s + [x])[|s|]);
    }
  }

  /** Sifting the last item into a heap of the others. */
  method SiftLast<T(!new)>(a: array<T>, len: nat, lt: (T, T) -> bool, ghost dom: T -> bool)
    requires 0 < len <= a.Length
    modifies a
    ensures multiset(a[..len]) == multiset(old(a[..len]))
    ensures WeakOrder(lt, dom) && Within(old(a[..len]), dom) && Heap(old(a[..len - 1]), lt)
            ==> Within(a[..len], dom) && Heap(a[..len], lt)
  {
    ghost var s := a[..len];
    AllDescendFromRoot(len - 1);
    assert s == a[..len - 1] + [s[len - 1]];
    PushedAtEnd(a[..len - 1], s[len - 1], lt, dom);
    hide WeakOrder, Within, HeapFrom, HeapExcept, Descends;
    Siftdown(a, len, 0, len - 1, lt, dom);
    if Within(s, dom) {
      SameItems(s, a[..len], dom);
    }
  }

  // ---------- Taking the root out ----------

  lemma HeapIsHeapFrom<T(!new)>(s: seq<T>, lt: (T, T) -> bool)
    ensures Heap(s, lt) <==> HeapFrom(s, 0, lt)
  {
  }

  lemma EmptyIsHeap<T(!new)>(s: seq<T>, lt: (T, T) -> bool, dom: T -> bool)
    ensures s == [] ==> Heap(s, lt) && Within(s, dom)
  {
  }

  lemma SameItems<T(!new)>(s: seq<T>, s': seq<T>, dom: T -> bool)
    requires multiset(s) == multiset(s') && Within(s, dom)
    ensures Within(s', dom)
  {
    forall i | 0 <= i < |s'| ensures dom(s'[i]) {
      assert s'[i] in multiset(s');
      assert s'[i] in s;
    }
  }

  /** What heappop does before it sifts: the last item replaces the first. */
  lemma LastToRoot<T(!new)>(s: seq<T>)
    requires s != []
    ensures var l := |s| - 1; l > 0 ==> multiset(s[..l][0 := s[l]]) + multiset{s[0]} == multiset(s)
    ensures |s| == 1 ==> multiset(s) == multiset{s[0]}
  {
    var l := |s| - 1;
    assert s == s[..l] + [s[l]];
    if l > 0 {
      assert s[..l] == [s[0]] + s[1..l] && s[..l][0 := s[l]] == [s[l]] + s[1..l];
    } else {
      assert s == [s[0]];
    }
  }

  lemma PoppedIsLeast<T(!new)>(s: seq<T>, lt: (T, T) -> bool, dom: T -> bool)
    requires s != [] && WeakOrder(lt, dom) && Within(s, dom) && Heap(s, lt)
    ensures dom(s[0]) && forall y | y in s :: dom(y) && Le(lt, s[0], y)
    ensures var l := |s| - 1; l > 0 ==> Within(s[..l][0 := s[l]], dom) && HeapFrom(s[..l][0 := s[l]], 1, lt)
  {
    forall y | y in s ensures dom(y) && Le(lt, s[0], y) {
      var i :| 0 <= i < |s| && s[i] == y;
      RootIsLeast(s, i, lt, dom);
    }
  }

  lemma FewerItems<T(!new)>(s: seq<T>, rest: seq<T>, x: T)
    requires multiset(s) == multiset(rest) + multiset{x}
    ensures x in s && forall y | y in rest :: y in s
  {
    assert x in multiset(s);
    forall y | y in rest ensures y in s {
      assert y in multiset(rest) && y in multiset(s);
    }
  }

  /** What both pops do after reading the root: the last item takes its place and sifts. */
  method RemoveRoot<T(!new)>(a: array<T>, len: nat, lt: (T, T) -> bool, ghost dom: T -> bool)
    requires 0 < len <= a.Length
    modifies a
    ensures multiset(old(a[..len])) == multiset(a[..len - 1]) + multiset{old(a[0])}
    ensures WeakOrder(lt, dom) && Within(old(a[..len]), dom) && Heap(old(a[..len]), lt)
            ==> Within(a[..len - 1], dom) && Heap(a[..len - 1], lt)
  {
    ghost var s := a[..len];
    ghost var good := WeakOrder(lt, dom) && Within(s, dom) && Heap(s, lt);
    LastToRoot(s);
    EmptyIsHeap<T>([], lt, dom);
    hide WeakOrder, Within, HeapFrom, Heap;
    var l := len - 1;
    if l > 0 {
      ghost var s' := s[..l][0 := s[l]];
      PutLast(a, len);
      if good {
        PoppedIsLeast(s, lt, dom);
      }
      Siftup(a, l, 0, lt, dom);
      if good {
        SameItems(s', a[..l], dom);
        HeapIsHeapFrom(a[..l], lt);
      }
    } else {
      assert a[..l] == [];
    }
  }

  method PutLast<T>(a: array<T>, len: nat)
    requires 1 < len <= a.Length
    modifies a
    ensures a[..len - 1] == old(a[..len])[..len - 1][0 := old(a[..len])[len - 1]]
  {
    a[0] := a[len - 1];
  }
}
