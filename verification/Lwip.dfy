/** Two parts of the lwIP socket that callbacks and user calls share: the queue of connections
    waiting to be accepted, and the chain of received data. Callbacks and calls run under one
    lock, so each is one step. */
module Lwip {
  import opened Basics
  import opened Bytes

  // ---------- The accept queue ----------

  type Pcb = nat       // an address

  const NULL: Pcb := 0

  datatype Err = ERR_OK | ERR_BUF

  /** The index n places after i in a ring. */
  function Ring(i: nat, n: nat, cap: nat): nat {
    if i + n < cap then i + n else i + n - cap
  }

  /** How far past `from` index i is in a ring. */
  function Dist(from: nat, i: nat, cap: nat): int {
    if i >= from then i - from else i - from + cap
  }

  /** The queue without its j-th connection. */
  function Without(q: seq<Pcb>, j: nat): seq<Pcb>
    requires j < |q|
  {
    q[..j] + q[j + 1..]
  }

  datatype Event = Arrival(pcb: Pcb) | Accepting | Dropping(pcb: Pcb)

  /** A run of the queue: the connections let in, those handed out, those dropped before they were,
      and those waiting. */
  datatype Run = Run(admitted: seq<Pcb>, accepted: seq<Pcb>, dropped: seq<Pcb>, queue: seq<Pcb>)

  function Step(r: Run, e: Event, cap: nat): Run {
    match e
    case Arrival(pcb) =>
      if |r.queue| >= cap then r else r.(admitted := r.admitted + [pcb], queue := r.queue + [pcb])
    case Accepting =>
      if r.queue == [] then r else r.(accepted := r.accepted + [r.queue[0]], queue := r.queue[1..])
    case Dropping(pcb) =>
      if pcb in r.queue then r.(dropped := r.dropped + [pcb], queue := Without(r.queue, IndexOf(r.queue, pcb))) else r
  }

  function IndexOf(q: seq<Pcb>, pcb: Pcb): (j: nat)
    requires pcb in q
    ensures j < |q| && q[j] == pcb
  {
    if q[0] == pcb then 0 else 1 + IndexOf(q[1..], pcb)
  }

  function After(events: seq<Event>, cap: nat): Run {
    if events == [] then Run([], [], [], []) else Step(After(events[..|events| - 1], cap), events[|events| - 1], cap)
  }

  /** One more event is one more step. */
  lemma RunGrows(events: seq<Event>, e: Event, cap: nat)
    ensures After(events + [e], cap) == Step(After(events, cap), e, cap)
  {
    assert (events + [e])[..|events|] == events;
  }

  /** Live connections, each once. */
  ghost predicate Distinct(q: seq<Pcb>) {
    && (forall k | 0 <= k < |q| :: q[k] != NULL)
    && (forall j, k | 0 <= j < k < |q| :: q[j] != q[k])
  }

  lemma DistinctLive(q: seq<Pcb>)
    requires Distinct(q)
    ensures q != [] ==> q[0] != NULL
    ensures NULL !in q && (q != [] ==> Distinct(q[1..]))
  {
  }

  lemma DistinctGrows(q: seq<Pcb>, pcb: Pcb)
    requires Distinct(q) && pcb != NULL && pcb !in q
    ensures Distinct(q + [pcb])
  {
  }

  lemma WithoutDistinct(q: seq<Pcb>, j: nat)
    requires j < |q| && Distinct(q)
    ensures Distinct(Without(q, j)) && IndexOf(q, q[j]) == j
    ensures forall i | 0 <= i < |q| && q[i] == q[j] :: i == j
  {
    var q' := Without(q, j);
    hide IndexOf;
    forall i, k | 0 <= i < k < |q'| ensures q'[i] != q'[k] {
      assert q'[i] == q[if i < j then i else i + 1] && q'[k] == q[if k < j then k else k + 1];
    }
  }

  /** What stands d places after iget when the ring holds q. */
  function At(q: seq<Pcb>, d: int): Pcb {
    if 0 <= d < |q| then q[d] else NULL
  }

  /** The ring holds exactly the queue: from iget on, and NULL everywhere else. */
  ghost predicate Holds(ring: seq<Pcb>, iget: nat, iput: nat, q: seq<Pcb>) {
    && iget < |ring| && |q| <= |ring|
    && iput == Ring(iget, if |q| == |ring| then 0 else |q|, |ring|)
    && forall i | 0 <= i < |ring| :: ring[i] == At(q, Dist(iget, i, |ring|))
  }

  lemma Push(ring: seq<Pcb>, iget: nat, iput: nat, q: seq<Pcb>, pcb: Pcb)
    requires Holds(ring, iget, iput, q) && pcb != NULL && NULL !in q
    ensures iput < |ring| && |q| <= |ring| && (ring[iput] == NULL <==> |q| < |ring|)
    ensures |q| < |ring| ==> Holds(ring[iput := pcb], iget, Ring(iput, 1, |ring|), q + [pcb])
  {
  }

  lemma Pop(ring: seq<Pcb>, iget: nat, iput: nat, q: seq<Pcb>)
    requires Holds(ring, iget, iput, q) && NULL !in q
    ensures iget < |ring| && (ring[iget] == NULL <==> q == [])
    ensures q != [] ==> ring[iget] == q[0]
    ensures q != [] ==> Holds(ring[iget := NULL], Ring(iget, 1, |ring|), iput, q[1..])
  {
    if q != [] {
      var ring', iget' := ring[iget := NULL], Ring(iget, 1, |ring|);
      forall i | 0 <= i < |ring| ensures ring'[i] == At(q[1..], Dist(iget', i, |ring|)) {
        assert ring[i] == At(q, Dist(iget, i, |ring|));
      }
    }
  }

  /** What stands d places after iget when the search for the connection at j has visited k
      places: what came after it, as far as the search went, has moved one place down. */
  function Shifting(q: seq<Pcb>, d: int, j: nat, k: nat): Pcb {
    if j <= d && d + 1 < k && d + 1 < |q| then q[d + 1] else At(q, d)
  }

  /** The loop of _lwip_tcp_err_unaccepted after k places: pcb was not among them, or it was the
      j-th and `shift` is the last place visited. */
  ghost predicate Visited(ring: seq<Pcb>, iget: nat, q: seq<Pcb>, pcb: Pcb, found: bool, shift: nat, j: nat, k: nat) {
    && iget < |ring| && |q| <= |ring|
    && (!found ==> forall m | 0 <= m < k && m < |q| :: q[m] != pcb)
    && (found ==> j < k && j < |q| && q[j] == pcb && shift == Ring(iget, k - 1, |ring|))
    && forall i | 0 <= i < |ring| :: ring[i] == Shifting(q, Dist(iget, i, |ring|), if found then j else |q|, k)
  }

  lemma VisitedNone(ring: seq<Pcb>, iget: nat, iput: nat, q: seq<Pcb>, pcb: Pcb)
    requires Holds(ring, iget, iput, q)
    ensures Visited(ring, iget, q, pcb, false, 0, 0, 0)
  {
  }

  lemma VisitedMore(ring: seq<Pcb>, iget: nat, q: seq<Pcb>, pcb: Pcb, found: bool, shift: nat, j: nat, k: nat)
    requires Visited(ring, iget, q, pcb, found, shift, j, k) && pcb != NULL
    requires k < |ring| && (found ==> k < |q|)
    ensures var i := Ring(iget, k, |ring|);
            if !found then
              && (ring[i] == pcb ==> Visited(ring, iget, q, pcb, true, i, k, k + 1))
              && (ring[i] != pcb ==> Visited(ring, iget, q, pcb, false, shift, j, k + 1))
            else
              shift < |ring| && Visited(ring[shift := ring[i]], iget, q, pcb, true, i, j, k + 1)
  {
    var i := Ring(iget, k, |ring|);
    assert Dist(iget, i, |ring|) == k;
    if found {
      assert Dist(iget, shift, |ring|) == k - 1;
      assert ring[i] == q[k];
    }
  }

  /** The code's way of going one place on. */
  lemma Wraps(i: nat, alloc: nat, cap: nat)
    requires cap == (if alloc == 0 then 1 else alloc) && i < cap
    ensures Ring(i, 1, cap) == if i + 1 >= alloc then 0 else i + 1
  {
  }

  /** A connection arrives at the ring of q, and at the queue of the run. */
  lemma Enqueued(ring: seq<Pcb>, iget: nat, iput: nat, q: seq<Pcb>, pcb: Pcb, events: seq<Event>, alloc: nat)
    requires Holds(ring, iget, iput, q) && Distinct(q) && pcb != NULL && pcb !in q
    requires |ring| == (if alloc == 0 then 1 else alloc) && q == After(events, |ring|).queue
    ensures |q| <= |ring| && iput < |ring| && (ring[iput] == NULL <==> |q| < |ring|)
    ensures var q', next := q + [pcb], if iput + 1 >= alloc then 0 else iput + 1;
            var was, now := After(events, |ring|), After(events + [Arrival(pcb)], |ring|);
            if |q| == |ring| then now == was
            else
              && Holds(ring[iput := pcb], iget, next, q') && Distinct(q')
              && now == was.(admitted := was.admitted + [pcb], queue := q')
  {
    hide Holds, Distinct, After, Ring;
    DistinctLive(q);
    DistinctGrows(q, pcb);
    Push(ring, iget, iput, q, pcb);
    Wraps(iput, alloc, |ring|);
    RunGrows(events, Arrival(pcb), |ring|);
  }

  /** A connection is taken from the ring of q, and from the queue of the run. */
  lemma Dequeued(ring: seq<Pcb>, iget: nat, iput: nat, q: seq<Pcb>, events: seq<Event>, alloc: nat)
    requires Holds(ring, iget, iput, q) && Distinct(q)
    requires |ring| == (if alloc == 0 then 1 else alloc) && q == After(events, |ring|).queue
    ensures iget < |ring| && (ring[iget] == NULL <==> q == [])
    ensures var next := if iget + 1 >= alloc then 0 else iget + 1;
            var was, now := After(events, |ring|), After(events + [Accepting], |ring|);
            if q == [] then now == was
            else
              && ring[iget] == q[0] && Holds(ring[iget := NULL], next, iput, q[1..]) && Distinct(q[1..])
              && now == was.(accepted := was.accepted + [q[0]], queue := q[1..])
  {
    hide Holds, Distinct, After, Ring;
    DistinctLive(q);
    Pop(ring, iget, iput, q);
    Wraps(iget, alloc, |ring|);
    RunGrows(events, Accepting, |ring|);
  }

  /** How far the search goes: to the end of the queue, or all the way round. */
  function SearchLength(q: seq<Pcb>, cap: nat): nat {
    if 0 < |q| < cap then |q| else cap
  }

  /** After the search pcb was not in the queue; or, with the left-over place cleared, the ring
      holds the queue without its j-th connection. */
  lemma VisitedAll(ring: seq<Pcb>, iget: nat, iput: nat, q: seq<Pcb>, pcb: Pcb, found: bool, shift: nat, j: nat)
    requires Visited(ring, iget, q, pcb, found, shift, j, SearchLength(q, |ring|)) && pcb != NULL
    requires iput == Ring(iget, if |q| == |ring| then 0 else |q|, |ring|)
    ensures !found ==> pcb !in q && Holds(ring, iget, iput, q)
    ensures found ==> j < |q| && q[j] == pcb && shift < |ring| && Holds(ring[shift := NULL], iget, shift, Without(q, j))
  {
    if found {
      var ring' := ring[shift := NULL];
      assert Dist(iget, shift, |ring|) == |q| - 1;
      forall i | 0 <= i < |ring| ensures ring'[i] == At(Without(q, j), Dist(iget, i, |ring|)) {
        var d := Dist(iget, i, |ring|);
        assert d == |q| - 1 ==> i == shift;
      }
    }
  }

  lemma SearchBegins(ring: seq<Pcb>, iget: nat, iput: nat, q: seq<Pcb>)
    requires Holds(ring, iget, iput, q)
    ensures iput == Ring(iget, if |q| == |ring| then 0 else |q|, |ring|) && iget == Ring(iget, 0, |ring|)
    ensures iget < |ring| && |q| <= |ring| && 0 < SearchLength(q, |ring|) <= |ring|
  {
  }

  /** The walk from iget meets iput again just when the search is over. */
  lemma NextPlace(iget: nat, n: nat, k: nat, alloc: nat, q: seq<Pcb>)
    requires var cap := if alloc == 0 then 1 else alloc; iget < cap && |q| <= cap && n == SearchLength(q, cap) && k < n
    ensures var cap := if alloc == 0 then 1 else alloc;
            var i := Ring(iget, k, cap) + 1;
            var next := if i >= alloc then 0 else i;
            next == Ring(iget, k + 1, cap)
            && (next == Ring(iget, if |q| == cap then 0 else |q|, cap) <==> k + 1 == n)
  {
  }

  lemma SomethingFound(ring: seq<Pcb>, iget: nat, iput: nat, q: seq<Pcb>, pcb: Pcb, found: bool, shift: nat, j: nat, k: nat)
    requires Visited(ring, iget, q, pcb, found, shift, j, k) && k < SearchLength(q, |ring|)
    ensures found ==> k < |q|
  {
  }

  class Listener {
    var alloc: nat              // uint8_t
    var iget: nat
    var iput: nat
    var slots: array<Pcb>       // the array, or the single item when alloc is 0
    ghost var queue: seq<Pcb>   // the connections waiting, oldest first
    ghost var history: seq<Event>

    ghost function Cap(): nat
      reads this
    {
      if alloc == 0 then 1 else alloc
    }

    /** What has become of the connections so far. */
    ghost function Record(): Run
      reads this
    {
      After(history, Cap())
    }

    ghost predicate Valid()
      reads this, slots
    {
      && alloc < 256 && Cap() <= slots.Length
      && Holds(slots[..Cap()], iget, iput, queue)
      && Distinct(queue) && queue == After(history, Cap()).queue
    }

    constructor ()
      ensures Valid() && history == [] && alloc == 0 && fresh(slots)
    {
      alloc, iget, iput, queue, history := 0, 0, 0, [], [];
      slots := new Pcb[1](_ => NULL);
    }

    /** lwip_socket_listen. The backlog is kept in one byte; the array it allocates, at address
        arr, shares its storage with the single item. */
    method Listen(backlog: int, arr: Pcb)
      requires arr != NULL
      modifies this
      ensures alloc == (if backlog <= 1 then 0 else backlog % 256) && fresh(slots)
      ensures history == [] && (Valid() <==> !(backlog > 1 && backlog % 256 == 0))
      ensures backlog > 1 && alloc == 0 ==> slots.Length == 1 && slots[0] == arr
    {
      if backlog <= 1 {
        alloc := 0;
        slots := new Pcb[1](_ => NULL);
      } else {
        alloc := backlog % 256;
        if alloc == 0 {
          slots := new Pcb[1](_ => arr);
        } else {
          slots := new Pcb[backlog](_ => NULL);
        }
      }
      iget, iput, queue, history := 0, 0, [], [];
      assert alloc == 0 && backlog > 1 ==> slots[..1][0] != NULL;
    }

    method Put(i: nat, pcb: Pcb, ghost cap: nat)
      requires i < cap <= slots.Length
      modifies slots
      ensures slots[..cap] == old(slots[..cap])[i := pcb]
    {
      slots[i] := pcb;
    }

    /** _lwip_tcp_accept: a new connection, or the notice that there was no memory for one. */
    method Arrive(pcb: Pcb, ok: bool) returns (r: Err)
      requires Valid() && pcb != NULL && pcb !in queue
      modifies this, slots
      ensures Valid() && alloc == old(alloc) && slots == old(slots)
      ensures !ok ==> r == ERR_OK && queue == old(queue) && history == old(history)
      ensures ok ==> history == old(history) + [Arrival(pcb)]
      ensures ok ==> r == if |old(queue)| == Cap() then ERR_BUF else ERR_OK
      ensures var was := old(Record());
              Record() == if ok && r.ERR_OK? then was.(admitted := was.admitted + [pcb], queue := queue) else was
      ensures ok ==> queue == if |old(queue)| == Cap() then old(queue) else old(queue) + [pcb]
    {
      if !ok {
        return ERR_OK;
      }
      r := Admit(pcb);
    }

    /** The pcb takes the slot at iput, if that is free. */
    method Admit(pcb: Pcb) returns (r: Err)
      requires Valid() && pcb != NULL && pcb !in queue
      modifies this, slots
      ensures Valid() && alloc == old(alloc) && slots == old(slots)
      ensures history == old(history) + [Arrival(pcb)]
      ensures r == if |old(queue)| == Cap() then ERR_BUF else ERR_OK
      ensures queue == if r.ERR_BUF? then old(queue) else old(queue) + [pcb]
      ensures var was := old(Record());
              Record() == if r.ERR_OK? then was.(admitted := was.admitted + [pcb], queue := queue) else was
    {
      hide After, Distinct, Holds;
      Enqueued(slots[..Cap()], iget, iput, queue, pcb, history, alloc);
      history := history + [Arrival(pcb)];
      if slots[iput] == NULL {
        Put(iput, pcb, Cap());
        iput := iput + 1;
        if iput >= alloc {
          iput := 0;
        }
        queue := queue + [pcb];
        return ERR_OK;
      }
      r := ERR_BUF;
    }

    /** The dequeue of lwip_socket_accept, on a socket that does not wait; NULL is EAGAIN. */
    method Accept() returns (pcb: Pcb)
      requires Valid()
      modifies this, slots
      ensures Valid() && alloc == old(alloc) && slots == old(slots)
      ensures history == old(history) + [Accepting]
      ensures if old(queue) == [] then pcb == NULL && queue == []
              else pcb == old(queue)[0] != NULL && queue == old(queue)[1..]
      ensures var was := old(Record());
              Record() == if pcb == NULL then was else was.(accepted := was.accepted + [pcb], queue := queue)
    {
      hide After, Distinct, Holds;
      Dequeued(slots[..Cap()], iget, iput, queue, history, alloc);
      history := history + [Accepting];
      if slots[iget] == NULL {
        return NULL;
      }
      pcb := slots[iget];
      var slot := iget;
      iget := iget + 1;
      if iget >= alloc {
        iget := 0;
      }
      Put(slot, NULL, Cap());
      queue := queue[1..];
    }

    /** One turn of the search of _lwip_tcp_err_unaccepted, at index i. */
    method Visit(pcb: Pcb, found: bool, shift: nat, i: nat, ghost ring: seq<Pcb>, ghost j: nat, ghost k: nat)
      returns (found': bool, shift': nat, ghost j': nat)
      requires 0 < |ring| <= slots.Length && ring == slots[..|ring|] && pcb != NULL
      requires Visited(ring, iget, queue, pcb, found, shift, j, k)
      requires k < |ring| && i == Ring(iget, k, |ring|) && (found ==> k < |queue|)
      modifies slots
      ensures Visited(slots[..|ring|], iget, queue, pcb, found', shift', j', k + 1)
    {
      VisitedMore(ring, iget, queue, pcb, found, shift, j, k);
      assert i < |ring|;
      hide Visited, Ring;
      found', shift', j' := found, shift, j;
      if !found {
        if slots[i] == pcb {
          found', shift', j' := true, i, k;
        }
      } else {
        Put(shift, slots[i], |ring|);
        shift' := i;
      }
    }

    /** And on to the next place, which is iput just when the search is over. */
    method SearchTurn(pcb: Pcb, found: bool, shift: nat, i: nat, ghost j: nat, ghost k: nat, ghost n: nat)
      returns (found': bool, shift': nat, next: nat, ghost j': nat)
      requires Cap() <= slots.Length && iget < Cap() && |queue| <= Cap() && pcb != NULL
      requires n == SearchLength(queue, Cap()) && k < n <= Cap() && i == Ring(iget, k, Cap())
      requires Visited(slots[..Cap()], iget, queue, pcb, found, shift, j, k)
      requires iput == Ring(iget, if |queue| == Cap() then 0 else |queue|, Cap())
      modifies slots
      ensures Visited(slots[..Cap()], iget, queue, pcb, found', shift', j', k + 1)
      ensures next == Ring(iget, k + 1, Cap()) && (next == iput <==> k + 1 == n)
    {
      hide Visited, Ring, SearchLength;
      NextPlace(iget, n, k, alloc, queue);
      SomethingFound(slots[..Cap()], iget, iput, queue, pcb, found, shift, j, k);
      found', shift', j' := Visit(pcb, found, shift, i, slots[..Cap()], j, k);
      next := i + 1;
      if next >= alloc {
        next := 0;
      }
    }

    method CloseUp(pcb: Pcb) returns (found: bool, shift: nat, ghost j: nat)
      requires Valid() && pcb != NULL
      modifies slots
      ensures Visited(slots[..Cap()], iget, queue, pcb, found, shift, j, SearchLength(queue, Cap()))
    {
      ghost var cap, n := Cap(), SearchLength(queue, Cap());
      found, shift, j := false, 0, 0;
      var i := iget;
      ghost var k := 0;
      hide Visited, Holds, Distinct, After, Ring, SearchLength;
      VisitedNone(slots[..cap], iget, iput, queue, pcb);
      SearchBegins(slots[..cap], iget, iput, queue);
      while true
        invariant k < n && i == Ring(iget, k, cap)
        invariant Visited(slots[..cap], iget, queue, pcb, found, shift, j, k)
        modifies slots
        decreases n - k
      {
        found, shift, i, j := SearchTurn(pcb, found, shift, i, j, k, n);
        k := k + 1;
        if i == iput {
          break;
        }
      }
      assert k == n;
    }

    /** _lwip_tcp_err_unaccepted: a connection that is dropped before it is accepted leaves the
        queue; those behind it move up. */
    method Drop(pcb: Pcb)
      requires Valid() && pcb != NULL
      modifies this, slots
      ensures Valid() && alloc == old(alloc) && slots == old(slots) && iget == old(iget)
      ensures history == old(history) + [Dropping(pcb)]
      ensures pcb !in old(queue) ==> queue == old(queue)
      ensures var was := old(Record());
              Record() == if pcb in old(queue) then was.(dropped := was.dropped + [pcb], queue := queue) else was
      ensures forall j | 0 <= j < |old(queue)| && old(queue)[j] == pcb :: queue == Without(old(queue), j)
    {
      RunGrows(history, Dropping(pcb), Cap());
      var found, shift;
      ghost var j;
      found, shift, j := CloseUp(pcb);
      ghost var ring := slots[..Cap()];
      VisitedAll(ring, iget, iput, queue, pcb, found, shift, j);
      hide Visited, Holds, Distinct, After, Without;
      if found {
        Put(shift, NULL, Cap());
        iput := shift;
        WithoutDistinct(queue, j);
        queue := Without(queue, j);
      }
      history := history + [Dropping(pcb)];
    }
  }

  /** A backlog of 256: before anything arrives, the queue's one place is taken by the address. */
  method BacklogOf256(arr: Pcb) returns (l: Listener)
    requires arr != NULL
    ensures !l.Valid() && l.alloc == 0 && l.slots.Length == 1 && l.slots[0] == arr
  {
    l := new Listener();
    l.Listen(256, arr);
  }

  // ---------- Whole runs of the queue ----------

  /** a is what is left of b after taking some elements out. */
  ghost predicate Subsequence(a: seq<Pcb>, b: seq<Pcb>) {
    if a == [] then true
    else if b == [] then false
    else
      || (a[|a| - 1] == b[|b| - 1] && Subsequence(a[..|a| - 1], b[..|b| - 1]))
      || Subsequence(a, b[..|b| - 1])
  }

  lemma AppendIsSubsequence(a: seq<Pcb>, b: seq<Pcb>, x: Pcb)
    requires Subsequence(a, b)
    ensures Subsequence(a + [x], b + [x])
  {
    var a', b' := a + [x], b + [x];
    assert a'[..|a'| - 1] == a && b'[..|b'| - 1] == b;
  }

  lemma RemovalFromPrefix(a: seq<Pcb>, i: nat)
    requires i < |a| - 1
    ensures var l, a' := |a| - 1, Without(a, i);
            |a'| == l && a'[l - 1] == a[l] && a'[..l - 1] == Without(a[..l], i)
  {
  }

  lemma RemovalOfLast(a: seq<Pcb>)
    requires a != []
    ensures Without(a, |a| - 1) == a[..|a| - 1]
  {
  }

  lemma {:induction false} SkipIsSubsequence(a: seq<Pcb>, b: seq<Pcb>)
    requires b != [] && Subsequence(a, b[..|b| - 1])
    ensures Subsequence(a, b)
  {
  }

  lemma {:induction false} RemovalIsSubsequence(a: seq<Pcb>, b: seq<Pcb>, i: nat)
    requires Subsequence(a, b) && i < |a|
    ensures Subsequence(Without(a, i), b)
    decreases |b|
  {
    hide Without;
    var l, b1 := |a| - 1, b[..|b| - 1];
    if Subsequence(a, b1) {
      RemovalIsSubsequence(a, b1, i);
      SkipIsSubsequence(Without(a, i), b);
    } else if i == l {
      RemovalOfLast(a);
      SkipIsSubsequence(a[..l], b);
    } else {
      RemovalIsSubsequence(a[..l], b1, i);
      RemovalFromPrefix(a, i);
      assert Subsequence(Without(a, i)[..l - 1], b1);
    }
  }

  lemma JoinedWithout(p: seq<Pcb>, q: seq<Pcb>, j: nat)
    requires j < |q|
    ensures |Without(q, j)| == |q| - 1 && p + Without(q, j) == Without(p + q, |p| + j)
    ensures multiset(q) == multiset(Without(q, j)) + multiset{q[j]}
  {
    assert q == q[..j] + [q[j]] + q[j + 1..];
  }

  /** Those handed out came in the order they were let in, and those waiting follow them in that
      order. */
  ghost predicate InOrder(r: Run) {
    Subsequence(r.accepted + r.queue, r.admitted)
  }

  /** Who was let in has been handed out, was dropped, or waits. */
  ghost predicate Accounted(r: Run) {
    multiset(r.admitted) == multiset(r.accepted) + multiset(r.dropped) + multiset(r.queue)
  }

  /** One event keeps the order of those let in. */
  lemma StepKeepsOrder(r: Run, e: Event, cap: nat)
    requires InOrder(r) && |r.queue| <= cap
    ensures InOrder(Step(r, e, cap)) && |Step(r, e, cap).queue| <= cap
  {
    hide Subsequence, Without;
    match e
    case Arrival(pcb) =>
      if |r.queue| < cap {
        AppendIsSubsequence(r.accepted + r.queue, r.admitted, pcb);
        Assoc(r.accepted, r.queue, [pcb]);
      }
    case Accepting =>
      if r.queue != [] {
        MovedOver(r.accepted, r.queue);
      }
    case Dropping(pcb) =>
      if pcb in r.queue {
        var j := IndexOf(r.queue, pcb);
        RemovalIsSubsequence(r.accepted + r.queue, r.admitted, |r.accepted| + j);
        JoinedWithout(r.accepted, r.queue, j);
      }
  }

  lemma MovedOver(p: seq<Pcb>, q: seq<Pcb>)
    requires q != []
    ensures p + [q[0]] + q[1..] == p + q
  {
    Assoc(p, [q[0]], q[1..]);
    assert [q[0]] + q[1..] == q;
  }

  /** One event loses nobody. */
  lemma StepLosesNobody(r: Run, e: Event, cap: nat)
    requires Accounted(r)
    ensures Accounted(Step(r, e, cap))
  {
    hide Without;
    match e
    case Arrival(pcb) =>
    case Accepting =>
      assert r.queue != [] ==> r.queue == [r.queue[0]] + r.queue[1..];
    case Dropping(pcb) =>
      if pcb in r.queue {
        JoinedWithout([], r.queue, IndexOf(r.queue, pcb));
      }
  }

  lemma NobodyYet()
    ensures InOrder(Run([], [], [], [])) && Accounted(Run([], [], [], []))
  {
  }

  /** In every run the queue is first in, first out, and of those let in only dropped ones are
      missing. At most cap wait at any time. */
  lemma {:induction false} RunIsFifo(events: seq<Event>, cap: nat)
    ensures var r := After(events, cap); InOrder(r) && Accounted(r) && |r.queue| <= cap
    decreases |events|
  {
    hide Step, InOrder, Accounted;
    if events == [] {
      NobodyYet();
    } else {
      var n := |events| - 1;
      RunIsFifo(events[..n], cap);
      StepKeepsOrder(After(events[..n], cap), events[n], cap);
      StepLosesNobody(After(events[..n], cap), events[n], cap);
    }
  }

  // ---------- Received data ----------

  datatype SocketState = CONNECTED | PEER_CLOSED | ERROR

  datatype Received = Got(n: nat) | WouldBlock | Failed

  /** A connected TCP socket: the pbufs not yet read, and how much of the first one is used. */
  class TcpSocket {
    var chain: seq<seq<Byte>>
    var recvOffset: nat
    var state: SocketState
    ghost var arrived: seq<Byte>
    ghost var delivered: seq<Byte>
    ghost var lost: seq<Byte>        // what was waiting when the connection broke down
    ghost var credit: nat            // what tcp_recved has given back to the peer's window

    /** The bytes received and not yet delivered. */
    ghost function Pending(): seq<Byte>
      requires chain != [] ==> recvOffset <= |chain[0]|
      reads this
    {
      From(chain, recvOffset)
    }

    /** Nothing is lost, repeated or reordered, except that an error drops what is waiting; and the
        window grows by just what was delivered. */
    ghost predicate Valid()
      reads this
    {
      && (if chain == [] then state == ERROR || recvOffset == 0 else recvOffset <= |chain[0]|)
      && (chain != [] && recvOffset == |chain[0]| ==> recvOffset == 0)
      && delivered + Pending() + lost == arrived
      && (if state == ERROR then chain == [] else lost == [])
      && credit == |delivered|
    }

    constructor ()
      ensures Valid() && arrived == [] && delivered == [] && state == CONNECTED
    {
      chain, recvOffset, state, arrived, delivered, lost, credit := [], 0, CONNECTED, [], [], [], 0;
    }

    /** _lwip_tcp_error: the stack gives the connection up, and with it what nobody has read. */
    method Error()
      requires Valid() && state != ERROR
      modifies this
      ensures Valid() && state == ERROR && arrived == old(arrived) && delivered == old(delivered)
      ensures lost == old(Pending())
    {
      lost := Pending();
      chain := [];
      state := ERROR;
      assert delivered + [] == delivered;
    }

    /** _lwip_tcp_recv: a chain of pbufs has come, or (None) the peer has closed. After an error the
        stack has no connection left to call back for. */
    method Recv(p: Option<seq<seq<Byte>>>)
      requires Valid() && state != ERROR && (p.Some? ==> p.value != [])
      modifies this
      ensures Valid() && delivered == old(delivered)
      ensures p.Some? ==> arrived == old(arrived) + Flat(p.value) && state == old(state)
      ensures p.None? ==> arrived == old(arrived) && state == PEER_CLOSED
    {
      if p.None? {
        state := PEER_CLOSED;
        return;
      }
      hide Flat, From;
      ghost var pending := Pending();
      ChainGrows(chain, p.value, recvOffset);
      if chain == [] {
        chain := p.value;
      } else {
        chain := chain + p.value;
      }
      Assoc(delivered, pending, Flat(p.value));
      assert delivered + pending + [] == delivered + pending;
      assert delivered + Pending() + [] == delivered + Pending();
      arrived := arrived + Flat(p.value);
    }

    /** lwip_tcp_receive on a socket that does not wait. */
    method Receive(buf: array<Byte>) returns (r: Received)
      requires Valid()
      modifies this, buf
      ensures Valid() && arrived == old(arrived) && state == old(state)
      ensures r.Got? ==> r.n <= buf.Length && delivered == old(delivered) + buf[..r.n]
      ensures !r.Got? ==> delivered == old(delivered)
      ensures r.Failed? <==> state == ERROR
      ensures r.WouldBlock? <==> state == CONNECTED && old(chain) == []
      ensures state != ERROR && old(chain) != [] ==>
                r == Got(if buf.Length < |old(chain)[0]| - old(recvOffset) then buf.Length else |old(chain)[0]| - old(recvOffset))
    {
      if state == ERROR {
        return Failed;
      }
      if chain == [] {
        if state == PEER_CLOSED {
          return Got(0);
        }
        return WouldBlock;
      }
      var p := chain[0];
      var remaining := |p| - recvOffset;
      var len := if buf.Length > remaining then remaining else buf.Length;
      Copy(buf, p, recvOffset, len);
      Consume(len, buf[..len]);
      r := Got(len);
    }

    /** The rest of lwip_tcp_receive: the bytes copied out leave the chain. */
    method Consume(len: nat, ghost taken: seq<Byte>)
      requires Valid() && state != ERROR && chain != [] && recvOffset + len <= |chain[0]|
      requires taken == chain[0][recvOffset..][..len]
      modifies this
      ensures Valid() && arrived == old(arrived) && state == old(state) && delivered == old(delivered) + taken
    {
      hide Flat, From;
      ChainShrinks(chain, recvOffset, len, taken);
      var remaining := |chain[0]| - recvOffset - len;
      if remaining == 0 {
        chain := chain[1..];
        recvOffset := 0;
      } else {
        recvOffset := recvOffset + len;
      }
      Assoc(delivered, taken, Pending());
      delivered := delivered + taken;
      credit := credit + len;
    }
  }

  /** memcpy */
  method Copy(buf: array<Byte>, p: seq<Byte>, offset: nat, len: nat)
    requires offset + len <= |p| && len <= buf.Length
    modifies buf
    ensures buf[..len] == p[offset..][..len]
  {
    forall i | 0 <= i < len {
      buf[i] := p[offset + i];
    }
  }

  /** The bytes of a chain from an offset in its first pbuf. */
  ghost function From(chain: seq<seq<Byte>>, offset: nat): seq<Byte>
    requires chain != [] ==> offset <= |chain[0]|
  {
    if chain == [] then [] else chain[0][offset..] + Flat(chain[1..])
  }

  lemma FromStart(chain: seq<seq<Byte>>)
    ensures From(chain, 0) == Flat(chain)
  {
    if chain != [] {
      assert chain[0][0..] == chain[0];
    }
  }

  lemma ChainGrows(chain: seq<seq<Byte>>, more: seq<seq<Byte>>, offset: nat)
    requires more != [] && (if chain == [] then offset == 0 else offset <= |chain[0]|)
    ensures From(chain + more, offset) == From(chain, offset) + Flat(more)
    ensures chain == [] ==> From(more, 0) == Flat(more)
  {
    hide Flat;
    if chain == [] {
      FromStart(more);
      assert chain + more == more;
    } else {
      FlatConcat(chain[1..], more);
      assert (chain + more)[0] == chain[0] && (chain + more)[1..] == chain[1..] + more;
      Assoc(chain[0][offset..], Flat(chain[1..]), Flat(more));
    }
  }

  lemma ChainShrinks(chain: seq<seq<Byte>>, offset: nat, len: nat, taken: seq<Byte>)
    requires chain != [] && offset + len <= |chain[0]| && taken == chain[0][offset..][..len]
    ensures From(chain, offset)
            == taken + if offset + len == |chain[0]| then From(chain[1..], 0) else From(chain, offset + len)
  {
    var p := chain[0];
    assert p[offset..] == taken + p[offset + len..];
    Assoc(taken, p[offset + len..], Flat(chain[1..]));
    if offset + len == |p| {
      FromStart(chain[1..]);
      assert p[offset + len..] == [];
    }
  }
}
