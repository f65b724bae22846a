/** heappush, heappop and heapify on a list (moduheapq.c). The order `lt` is the items' own; on the
    items of `dom` it is a total preorder. */
module HeapQ {
  import opened Heaps

  datatype Popped<T> = Item(x: T) | IndexError

  class List<T(!new)> {
    var items: array<T>
    var len: nat

    ghost predicate Valid()
      reads this
    {
      len <= items.Length
    }

    ghost function Contents(): seq<T>
      requires Valid()
      reads this, items
    {
      items[..len]
    }

    /** The list is a heap of items that the order is good for. */
    ghost predicate IsHeap(lt: (T, T) -> bool, dom: T -> bool)
      requires Valid()
      reads this, items
    {
      WeakOrder(lt, dom) && Within(Contents(), dom) && Heap(Contents(), lt)
    }

    constructor ()
      ensures Valid() && Contents() == [] && fresh(items)
    {
      items, len := new T[0], 0;
    }

    /** list.append; the array grows when it is full. */
    method Append(x: T)
      requires Valid()
      modifies this, items
      ensures Valid() && Contents() == old(Contents()) + [x]
      ensures items == old(items) || fresh(items)
    {
      if len == items.Length {
        var was := items[..];
        items := new T[2 * len + 4](i => if 0 <= i < |was| then was[i] else x);
        assert items[..len] == was;
      }
      items[len] := x;
      len := len + 1;
    }

    method Heappush(x: T, lt: (T, T) -> bool, ghost dom: T -> bool)
      requires Valid()
      modifies this, items
      ensures Valid() && (items == old(items) || fresh(items))
      ensures multiset(Contents()) == multiset(old(Contents())) + multiset{x}
      ensures old(IsHeap(lt, dom)) && dom(x) ==> IsHeap(lt, dom)
    {
      hide WeakOrder, Within, Heap, HeapFrom;
      ghost var s := Contents();
      Append(x);
      WithinGrows(s, x, dom);
      assert Contents()[..len - 1] == s;
      assert multiset(s + [x]) == multiset(s) + multiset{x};
      SiftNew(lt, dom);
    }

    /** The new item at the end sifts to its place. */
    method SiftNew(lt: (T, T) -> bool, ghost dom: T -> bool)
      requires Valid() && len > 0
      modifies items
      ensures Valid() && multiset(Contents()) == multiset(old(Contents()))
      ensures WeakOrder(lt, dom) && Within(old(Contents()), dom) && Heap(old(Contents())[..len - 1], lt) ==> IsHeap(lt, dom)
    {
      hide WeakOrder, Within, Heap, HeapFrom;
      assert Contents()[..len - 1] == items[..len - 1];
      SiftLast(items, len, lt, dom);
    }

    /** heappop hands out a least item, and keeps the rest, in a heap. */
    method Heappop(lt: (T, T) -> bool, ghost dom: T -> bool) returns (r: Popped<T>)
      requires Valid()
      modifies this, items
      ensures Valid() && items == old(items)
      ensures r.IndexError? <==> old(Contents()) == []
      ensures r.IndexError? ==> Contents() == old(Contents())
      ensures r.Item? ==> multiset(old(Contents())) == multiset(Contents()) + multiset{r.x} && len == old(len) - 1
      ensures old(IsHeap(lt, dom)) ==> IsHeap(lt, dom)
      ensures old(IsHeap(lt, dom)) && r.Item? ==> dom(r.x) && forall y | y in Contents() :: dom(y) && Le(lt, r.x, y)
    {
      hide WeakOrder, Within, HeapFrom, Heap, Le;
      if len == 0 {
        return IndexError;
      }
      ghost var s := Contents();
      var item := items[0];
      if IsHeap(lt, dom) {
        PoppedIsLeast(s, lt, dom);
      }
      RemoveRoot(items, len, lt, dom);
      len := len - 1;
      FewerItems(s, Contents(), item);
      r := Item(item);
    }

    method Heapify(lt: (T, T) -> bool, ghost dom: T -> bool)
      requires Valid()
      modifies items
      ensures multiset(Contents()) == multiset(old(Contents()))
      ensures WeakOrder(lt, dom) && Within(old(Contents()), dom) ==> IsHeap(lt, dom)
    {
      ghost var good := WeakOrder(lt, dom) && Within(Contents(), dom);
      var i := len / 2;
      assert HeapFrom(Contents(), i, lt);
      hide WeakOrder, Within, HeapFrom, Heap;
      while i > 0
        invariant 0 <= i <= len / 2 && multiset(Contents()) == multiset(old(Contents()))
        invariant good ==> Within(Contents(), dom) && HeapFrom(Contents(), i, lt)
        modifies items
      {
        i := i - 1;
        ghost var s := Contents();
        Siftup(items, len, i, lt, dom);
        if good {
          SameItems(s, Contents(), dom);
        }
      }
      HeapIsHeapFrom(Contents(), lt);
    }

    /** Popping a heap until it is empty hands out its items in order. */
    method Drain(lt: (T, T) -> bool, ghost dom: T -> bool) returns (out: seq<T>)
      requires Valid() && IsHeap(lt, dom)
      modifies this, items
      ensures Valid() && Contents() == [] && multiset(out) == multiset(old(Contents())) && Sorted(out, lt)
    {
      out := [];
      hide WeakOrder, Within, Heap, HeapFrom, Sorted, NoneLess;
      NothingOut(Contents(), lt);
      while len > 0
        invariant Valid() && IsHeap(lt, dom) && items == old(items)
        invariant multiset(out) + multiset(Contents()) == multiset(old(Contents()))
        invariant Sorted(out, lt) && NoneLess(out, Contents(), lt)
        decreases len
      {
        ghost var s := Contents();
        var r := Heappop(lt, dom);
        FewerItems(s, Contents(), r.x);
        DrainOne(out, s, r.x, Contents(), lt);
        out := out + [r.x];
      }
    }

    /** The list sorted by heapify and pops: a sorted permutation of any list. */
    method HeapSort(lt: (T, T) -> bool, ghost dom: T -> bool) returns (out: seq<T>)
      requires Valid() && WeakOrder(lt, dom) && Within(Contents(), dom)
      modifies this, items
      ensures multiset(out) == multiset(old(Contents())) && Sorted(out, lt)
    {
      Heapify(lt, dom);
      out := Drain(lt, dom);
    }
  }

  ghost predicate Sorted<T(!new)>(s: seq<T>, lt: (T, T) -> bool) {
    forall i, j | 0 <= i < j < |s| :: Le(lt, s[i], s[j])
  }

  /** Nothing in the rest is less than what is out. */
  ghost predicate NoneLess<T(!new)>(out: seq<T>, rest: seq<T>, lt: (T, T) -> bool) {
    forall i, y {:trigger Le(lt, out[i], y)} | 0 <= i < |out| && y in rest :: Le(lt, out[i], y)
  }

  lemma NothingOut<T(!new)>(rest: seq<T>, lt: (T, T) -> bool)
    ensures Sorted([], lt) && NoneLess([], rest, lt)
  {
  }

  lemma DrainOne<T(!new)>(out: seq<T>, s: seq<T>, x: T, rest: seq<T>, lt: (T, T) -> bool)
    requires Sorted(out, lt) && NoneLess(out, s, lt) && x in s
    requires forall y | y in rest :: y in s && Le(lt, x, y)
    ensures Sorted(out + [x], lt) && NoneLess(out + [x], rest, lt)
  {
  }
}
