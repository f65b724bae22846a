/** A disk spread over many tiles, one byte of every block on each, reached one block at a time
    by yielding to the host loop; and the flat RAM disk it must be indistinguishable from. */
module StripedDisk {
  import opened Arith
  import opened Basics
  import opened Bytes

  const READ := 1
  const WRITE := -1

  datatype Exchange = Exchange(block: int, action: int)

  // ---------- The striping ----------

  /** Where byte a of the logical disk is: tile a % blockSize holds it, at position a / blockSize. */
  function Stripe(blockSize: nat, numBlocks: nat, a: nat): nat
    requires blockSize > 0
  {
    a % blockSize * numBlocks + a / blockSize
  }

  lemma StripeInBounds(blockSize: nat, numBlocks: nat, a: nat)
    requires blockSize > 0 && a < blockSize * numBlocks
    ensures a / blockSize < numBlocks
    ensures Stripe(blockSize, numBlocks, a) < blockSize * numBlocks
  {
    RowBound(a, blockSize, numBlocks);
    Below(a % blockSize, blockSize, numBlocks);
  }

  lemma SameParts(a: nat, b: nat, d: nat)
    requires d > 0 && a / d == b / d && a % d == b % d
    ensures a == b
  {
    DivMod(a, d);
    DivMod(b, d);
  }

  /** Byte i of block p, seen from its tile. */
  lemma StripeOfBlock(blockSize: nat, numBlocks: nat, p: nat, i: nat)
    requires i < blockSize && p < numBlocks
    ensures p * blockSize + i < blockSize * numBlocks
    ensures i * numBlocks + p < blockSize * numBlocks
    ensures Stripe(blockSize, numBlocks, p * blockSize + i) == i * numBlocks + p
  {
    Unpack(blockSize, p, i);
    Below(p, numBlocks, blockSize);
    Below(i, blockSize, numBlocks);
  }

  /** Striping loses nothing: different logical bytes live in different places. */
  lemma StripeInjective(blockSize: nat, numBlocks: nat, a: nat, b: nat)
    requires blockSize > 0 && a < blockSize * numBlocks && b < blockSize * numBlocks
    requires Stripe(blockSize, numBlocks, a) == Stripe(blockSize, numBlocks, b)
    ensures a == b
  {
    hide Stripe;
    StripeParts(blockSize, numBlocks, a);
    StripeParts(blockSize, numBlocks, b);
    SameParts(a, b, blockSize);
  }

  /** The place tells the block and the tile. */
  lemma StripeParts(blockSize: nat, numBlocks: nat, a: nat)
    requires blockSize > 0 && a < blockSize * numBlocks
    ensures numBlocks > 0
    ensures Stripe(blockSize, numBlocks, a) % numBlocks == a / blockSize
    ensures Stripe(blockSize, numBlocks, a) / numBlocks == a % blockSize
  {
    StripeInBounds(blockSize, numBlocks, a);
    Unpack(numBlocks, a % blockSize, a / blockSize);
  }

  /** The logical disk held by the physical one. */
  ghost function Unstripe(disk: seq<Byte>, blockSize: nat, numBlocks: nat): (flat: seq<Byte>)
    requires blockSize > 0 && |disk| == blockSize * numBlocks
    ensures |flat| == |disk|
    ensures forall a | 0 <= a < |flat| ::
              Stripe(blockSize, numBlocks, a) < |disk| && flat[a] == disk[Stripe(blockSize, numBlocks, a)]
  {
    forall a | 0 <= a < |disk| ensures Stripe(blockSize, numBlocks, a) < |disk| {
      StripeInBounds(blockSize, numBlocks, a);
    }
    seq(|disk|, a requires 0 <= a < |disk| =>
          assert Stripe(blockSize, numBlocks, a) < |disk| by { StripeInBounds(blockSize, numBlocks, a); }
          disk[Stripe(blockSize, numBlocks, a)])
  }

  /** Storing one physical byte changes exactly the logical byte it stands for. */
  lemma UnstripeUpdate(disk: seq<Byte>, blockSize: nat, numBlocks: nat, a: nat, v: Byte)
    requires blockSize > 0 && |disk| == blockSize * numBlocks && a < |disk|
    ensures Stripe(blockSize, numBlocks, a) < |disk|
    ensures Unstripe(disk[Stripe(blockSize, numBlocks, a) := v], blockSize, numBlocks)
         == Unstripe(disk, blockSize, numBlocks)[a := v]
  {
    hide Stripe;
    StripeInBounds(blockSize, numBlocks, a);
    var flat := Unstripe(disk[Stripe(blockSize, numBlocks, a) := v], blockSize, numBlocks);
    forall b | 0 <= b < |flat|
      ensures flat[b] == Unstripe(disk, blockSize, numBlocks)[a := v][b]
    {
      if Stripe(blockSize, numBlocks, b) == Stripe(blockSize, numBlocks, a) {
        StripeInjective(blockSize, numBlocks, a, b);
      }
    }
  }

  // ---------- What the two devices promise ----------

  ghost function Overwrite(s: seq<Byte>, addr: nat, data: seq<Byte>): (t: seq<Byte>)
    requires addr + |data| <= |s|
    ensures |t| == |s|
  {
    s[..addr] + data + s[addr + |data|..]
  }

  lemma OverwriteAt(s: seq<Byte>, addr: nat, data: seq<Byte>, i: nat)
    requires addr + |data| <= |s| && i < |s|
    ensures Overwrite(s, addr, data)[i] == if addr <= i < addr + |data| then data[i - addr] else s[i]
  {
  }

  lemma OverwriteOneMore(s: seq<Byte>, addr: nat, data: seq<Byte>, i: nat)
    requires addr + |data| <= |s| && i < |data|
    ensures Overwrite(s, addr, data[..i])[addr + i := data[i]] == Overwrite(s, addr, data[..i + 1])
  {
  }

  /** One block of a flat disk. */
  ghost function Block(flat: seq<Byte>, blockSize: nat, b: nat): (block: seq<Byte>)
    requires b * blockSize + blockSize <= |flat|
    ensures |block| == blockSize
  {
    flat[b * blockSize..b * blockSize + blockSize]
  }

  /** The exchanges of a read: one READ for each block it overlaps, in order.
      An empty read in the middle of a block still fetches that block. */
  ghost function ReadLog(blockSize: nat, addr: nat, len: nat): seq<Exchange>
    requires blockSize > 0
  {
    var first := addr / blockSize;
    if len == 0 && addr % blockSize == 0 then []
    else Reads(first, Overlapped(blockSize, addr, len))
  }

  /** How many blocks a range that starts inside the first one overlaps. */
  ghost function Overlapped(blockSize: nat, addr: nat, len: nat): nat
    requires blockSize > 0
  {
    if len == 0 then 1 else (addr + len - 1) / blockSize - addr / blockSize + 1
  }

  ghost function Reads(first: nat, n: nat): (log: seq<Exchange>)
    ensures |log| == n
  {
    seq(n, i => Exchange(first + i, READ))
  }

  lemma ReadsAppend(first: nat, n: nat, log: seq<Exchange>)
    ensures log + Reads(first, n) + [Exchange(first + n, READ)] == log + Reads(first, n + 1)
  {
  }

  /** The range starts on a block boundary, or reaches the end of its first block. */
  predicate FillsFirstBlock(blockSize: nat, addr: nat, len: nat)
    requires blockSize > 0
  {
    addr % blockSize == 0 || blockSize - addr % blockSize <= len
  }

  function Zeros(n: nat): (z: seq<Byte>)
    ensures |z| == n
  {
    seq(n, _ => 0)
  }

  /** What a write makes of a disk, which has room for the rest of the block. */
  ghost function Written(flat: seq<Byte>, blockSize: nat, addr: nat, data: seq<Byte>): seq<Byte>
    requires blockSize > 0 && addr + |data| <= |flat|
  {
    if FillsFirstBlock(blockSize, addr, |data|) then Overwrite(flat, addr, data)
    else
      var zeros := Zeros(blockSize - addr % blockSize - |data|);
      if addr + |data| + |zeros| <= |flat| then Overwrite(flat, addr, data + zeros) else flat
  }

  ghost function WrittenLog(blockSize: nat, addr: nat, len: nat): seq<Exchange>
    requires blockSize > 0
  {
    if FillsFirstBlock(blockSize, addr, len) then WriteLog(blockSize, addr, len)
    else [Exchange(addr / blockSize, READ), Exchange(addr / blockSize, WRITE)]
  }

  /** The exchanges of a write: one WRITE for each block it overlaps, in order, and before it a
      READ if the block is overwritten only in part. */
  ghost function WriteLog(blockSize: nat, addr: nat, len: nat): seq<Exchange>
    requires blockSize > 0
    decreases len
  {
    if len == 0 then [] else
      var room := blockSize - addr % blockSize;
      var n := if room < len then room else len;
      var b := addr / blockSize;
      (if n < blockSize then [Exchange(b, READ)] else []) + [Exchange(b, WRITE)]
      + WriteLog(blockSize, addr + n, len - n)
  }

  // ---------- What the logs say of each block ----------

  /** The range has bytes in block b. */
  ghost predicate Overlaps(blockSize: nat, addr: nat, len: nat, b: nat) {
    len > 0 && addr < b * blockSize + blockSize && b * blockSize < addr + len
  }

  /** It has all of them. */
  ghost predicate Covers(blockSize: nat, addr: nat, len: nat, b: nat) {
    addr <= b * blockSize && b * blockSize + blockSize <= addr + len
  }

  /** A write stores each block it overlaps once, and fetches it once if it does not cover it. */
  lemma {:induction false} WriteCounts(blockSize: nat, addr: nat, len: nat, b: nat)
    requires blockSize > 0
    ensures var log, o := multiset(WriteLog(blockSize, addr, len)), Overlaps(blockSize, addr, len, b);
            && log[Exchange(b, WRITE)] == (if o then 1 else 0)
            && log[Exchange(b, READ)] == if o && !Covers(blockSize, addr, len, b) then 1 else 0
    decreases len
  {
    hide WriteLog, Overlaps, Covers, StoreLog;
    if len == 0 {
      NothingWritten(blockSize, addr, b);
    } else {
      var first := addr / blockSize;
      var n := FirstStore(blockSize, addr, len, first);
      WriteCounts(blockSize, addr + n, len - n, b);
      var head, rest := StoreLog(blockSize, first, n), WriteLog(blockSize, addr + n, len - n);
      StoreCounts(blockSize, first, n, b);
      FirstAndRest(blockSize, addr, len, first, n, b);
      JoinedCounts(head, rest, Exchange(b, WRITE));
      JoinedCounts(head, rest, Exchange(b, READ));
    }
  }

  lemma NothingWritten(blockSize: nat, addr: nat, b: nat)
    requires blockSize > 0
    ensures WriteLog(blockSize, addr, 0) == [] && !Overlaps(blockSize, addr, 0, b)
  {
  }

  lemma JoinedCounts(a: seq<Exchange>, b: seq<Exchange>, x: Exchange)
    ensures multiset(a + b)[x] == multiset(a)[x] + multiset(b)[x]
  {
    assert multiset(a + b) == multiset(a) + multiset(b);
  }

  lemma FirstStore(blockSize: nat, addr: nat, len: nat, first: nat) returns (n: nat)
    requires blockSize > 0 && len > 0 && first == addr / blockSize
    ensures 0 < n <= len && first * blockSize <= addr < first * blockSize + blockSize
    ensures var room := first * blockSize + blockSize - addr; n == if room < len then room else len
    ensures WriteLog(blockSize, addr, len) == StoreLog(blockSize, first, n) + WriteLog(blockSize, addr + n, len - n)
  {
    DivMod(addr, blockSize);
    var room := blockSize - addr % blockSize;
    n := if room < len then room else len;
  }

  lemma StoreCounts(blockSize: nat, first: nat, n: nat, b: nat)
    ensures multiset(StoreLog(blockSize, first, n))[Exchange(b, WRITE)] == if b == first then 1 else 0
    ensures multiset(StoreLog(blockSize, first, n))[Exchange(b, READ)] == if b == first && n < blockSize then 1 else 0
  {
  }

  /** The first block of a range, and the range behind it. */
  lemma FirstAndRest(blockSize: nat, addr: nat, len: nat, first: nat, n: nat, b: nat)
    requires blockSize > 0 && len > 0 && first * blockSize <= addr < first * blockSize + blockSize
    requires var room := first * blockSize + blockSize - addr; n == if room < len then room else len
    ensures b == first ==>
              && Overlaps(blockSize, addr, len, b) && !Overlaps(blockSize, addr + n, len - n, b)
              && (Covers(blockSize, addr, len, b) <==> n == blockSize)
    ensures b != first ==>
              && (Overlaps(blockSize, addr, len, b) <==> Overlaps(blockSize, addr + n, len - n, b))
              && (Overlaps(blockSize, addr, len, b) ==>
                    (Covers(blockSize, addr, len, b) <==> Covers(blockSize, addr + n, len - n, b)))
  {
    if b < first {
      Below(b, first, blockSize);
    } else if first < b {
      Below(first, b, blockSize);
    }
  }

  /** A read fetches each block it overlaps once, and stores none. */
  lemma ReadCounts(blockSize: nat, addr: nat, len: nat, b: nat)
    requires blockSize > 0 && len > 0
    ensures var log := multiset(ReadLog(blockSize, addr, len));
            && log[Exchange(b, READ)] == (if Overlaps(blockSize, addr, len, b) then 1 else 0)
            && log[Exchange(b, WRITE)] == 0
  {
    var first, last := addr / blockSize, (addr + len - 1) / blockSize;
    QuotientMonotone(addr, addr + len - 1, blockSize);
    RunCounts(first, last - first + 1, b);
    BlockOf(blockSize, addr, b);
    BlockOf(blockSize, addr + len - 1, b);
    hide Reads;
    assert ReadLog(blockSize, addr, len) == Reads(first, last - first + 1);
  }

  /** Block b reaches to a byte or beyond, and begins at it or before. */
  lemma BlockOf(blockSize: nat, at: nat, b: nat)
    requires blockSize > 0
    ensures at / blockSize <= b <==> at < b * blockSize + blockSize
    ensures b <= at / blockSize <==> b * blockSize <= at
  {
    DivMod(at, blockSize);
    var q := at / blockSize;
    if b < q {
      Below(b, q, blockSize);
    } else if q < b {
      Below(q, b, blockSize);
    }
  }

  lemma {:induction false} RunCounts(first: nat, n: nat, b: nat)
    ensures multiset(Reads(first, n))[Exchange(b, READ)] == if first <= b < first + n then 1 else 0
    ensures multiset(Reads(first, n))[Exchange(b, WRITE)] == 0
    decreases n
  {
    if n > 0 {
      RunCounts(first, n - 1, b);
      assert Reads(first, n) == Reads(first, n - 1) + [Exchange(first + n - 1, READ)];
    }
  }

  /** A write has stored r of its len bytes, the next goes to block b, and log has grown from
      log0 by just the exchanges those r bytes need. */
  ghost predicate WriteSoFar(blockSize: nat, addr: nat, len: nat, r: nat, b: nat, log0: seq<Exchange>, log: seq<Exchange>)
    requires blockSize > 0
  {
    && r <= len
    && b * blockSize + (if r == 0 then addr % blockSize else 0) == addr + r
    && log + WriteLog(blockSize, addr + r, len - r) == log0 + WriteLog(blockSize, addr, len)
  }

  lemma WriteBegun(blockSize: nat, addr: nat, len: nat, log: seq<Exchange>)
    requires blockSize > 0
    ensures WriteSoFar(blockSize, addr, len, 0, addr / blockSize, log, log)
  {
    DivMod(addr, blockSize);
  }

  lemma WriteDone(blockSize: nat, addr: nat, len: nat, b: nat, log0: seq<Exchange>, log: seq<Exchange>)
    requires blockSize > 0 && WriteSoFar(blockSize, addr, len, len, b, log0, log)
    ensures log == log0 + WriteLog(blockSize, addr, len)
  {
  }

  ghost function StoreLog(blockSize: nat, b: nat, n: nat): seq<Exchange> {
    (if n < blockSize then [Exchange(b, READ)] else []) + [Exchange(b, WRITE)]
  }

  lemma StoreLogged(blockSize: nat, b: nat, n: nat, log: seq<Exchange>)
    ensures n < blockSize ==> log + [Exchange(b, READ)] + [Exchange(b, WRITE)] == log + StoreLog(blockSize, b, n)
    ensures n >= blockSize ==> log + [Exchange(b, WRITE)] == log + StoreLog(blockSize, b, n)
  {
  }

  /** The first store of a write that starts inside a block. */
  lemma WriteFirst(blockSize: nat, addr: nat, len: nat, log: seq<Exchange>)
    requires blockSize > 0 && addr % blockSize > 0 && FillsFirstBlock(blockSize, addr, len)
    ensures var n, b := blockSize - addr % blockSize, addr / blockSize;
            WriteSoFar(blockSize, addr, len, n, b + 1, log, log + StoreLog(blockSize, b, n))
  {
    var n, b := blockSize - addr % blockSize, addr / blockSize;
    DivMod(addr, blockSize);
    NextBlock(b, blockSize);
    assert WriteLog(blockSize, addr, len) == StoreLog(blockSize, b, n) + WriteLog(blockSize, addr + n, len - n);
  }

  /** Every other store: a whole block, or the rest of the data at the start of one. */
  lemma WriteNext(blockSize: nat, numBlocks: nat, addr: nat, len: nat, r: nat, b: nat, n: nat,
                  log0: seq<Exchange>, log: seq<Exchange>)
    requires blockSize > 0 && WriteSoFar(blockSize, addr, len, r, b, log0, log)
    requires addr + len <= blockSize * numBlocks && (r == 0 ==> addr % blockSize == 0)
    requires 0 < n && r + n <= len && (n == blockSize || (n < blockSize && r + n == len))
    ensures b < numBlocks && b * blockSize == addr + r
    ensures n == blockSize ==> WriteSoFar(blockSize, addr, len, r + n, b + 1, log0, log + StoreLog(blockSize, b, n))
    ensures r + n == len ==> log + StoreLog(blockSize, b, n) == log0 + WriteLog(blockSize, addr, len)
  {
    InRange(b, blockSize, numBlocks, addr + r);
    Unpack(blockSize, b, 0);
    NextBlock(b, blockSize);
    var rest := WriteLog(blockSize, addr + r + n, len - r - n);
    assert WriteLog(blockSize, addr + r, len - r) == StoreLog(blockSize, b, n) + rest;
    assert log + StoreLog(blockSize, b, n) + rest == log0 + WriteLog(blockSize, addr, len);
  }

  /** The first n bytes of data have been written to the disk flat, giving now. */
  ghost predicate Put(flat: seq<Byte>, addr: nat, data: seq<Byte>, n: nat, now: seq<Byte>) {
    n <= |data| && addr + |data| <= |flat| && now == Overwrite(flat, addr, data[..n])
  }

  lemma PutSize(flat: seq<Byte>, addr: nat, data: seq<Byte>, n: nat, now: seq<Byte>)
    requires Put(flat, addr, data, n, now)
    ensures |now| == |flat|
  {
  }

  lemma PutNothing(flat: seq<Byte>, addr: nat, data: seq<Byte>)
    requires addr + |data| <= |flat|
    ensures Put(flat, addr, data, 0, flat)
  {
  }

  lemma PutAll(flat: seq<Byte>, addr: nat, data: seq<Byte>, now: seq<Byte>)
    requires Put(flat, addr, data, |data|, now)
    ensures addr + |data| <= |flat| && now == Overwrite(flat, addr, data)
  {
    assert data[..|data|] == data;
  }

  /** Storing a merged block extends the written range by the bytes merged in. */
  lemma Merged(flat: seq<Byte>, addr: nat, data: seq<Byte>, at: nat, now: seq<Byte>,
               b: nat, w: seq<Byte>, from: nat, n: nat)
    requires Put(flat, addr, data, at, now) && at + n <= |data|
    requires b * |w| + from == addr + at && from + n <= |w| && b * |w| + |w| <= |flat| == |now|
    requires n == |w| || w == Block(now, |w|, b)
    ensures Put(flat, addr, data, at + n, Overwrite(now, b * |w|, w[..from] + data[at..at + n] + w[from + n..]))
  {
    var base := b * |w|;
    var block := w[..from] + data[at..at + n] + w[from + n..];
    var l, r := Overwrite(now, base, block), Overwrite(flat, addr, data[..at + n]);
    hide Overwrite;
    forall i | 0 <= i < |flat|
      ensures l[i] == r[i]
    {
      OverwriteAt(now, base, block, i);
      OverwriteAt(flat, addr, data[..at + n], i);
      OverwriteAt(flat, addr, data[..at], i);
      if base <= i < base + |w| {
        assert block[i - base] == if from <= i - base < from + n then data[i - addr] else w[i - base];
        assert n < |w| ==> w[i - base] == now[i];
      }
    }
  }

  // ---------- The vertices of a compute set ----------

  /** All of the n vertices, and no others. */
  ghost predicate IsOrder(order: seq<nat>, n: nat) {
    && (forall k | 0 <= k < |order| :: order[k] < n)
    && (forall i: nat | i < n :: i in order)
  }

  /** The order that the device runs them in; only that each runs is known of it. */
  method SomeOrder(n: nat) returns (order: seq<nat>)
    ensures IsOrder(order, n)
  {
    order := [];
    for i := 0 to n
      invariant IsOrder(order, i)
    {
      order := order + [i];
    }
  }

  lemma OrderBelow(order: seq<nat>, n: nat, k: nat)
    requires IsOrder(order, n) && k < |order|
    ensures order[k] < n
  {
  }

  /** The window when the vertices of `ran` have read their bytes. */
  ghost predicate Fetched(window: seq<Byte>, flat: seq<Byte>, w: seq<Byte>, base: nat, ran: seq<nat>) {
    && |window| == |w| && base + |w| <= |flat|
    && forall i: nat {:trigger window[i]} | i < |w| :: window[i] == if i in ran then flat[base + i] else w[i]
  }

  /** The disk when the vertices of `ran` have written theirs. */
  ghost predicate Stored(now: seq<Byte>, flat: seq<Byte>, w: seq<Byte>, base: nat, ran: seq<nat>) {
    && |now| == |flat| && base + |w| <= |flat|
    && forall a: nat {:trigger now[a]} | a < |now| ::
         now[a] == if base <= a < base + |w| && (a - base) in ran then w[a - base] else flat[a]
  }

  lemma NothingRun(flat: seq<Byte>, w: seq<Byte>, base: nat)
    requires base + |w| <= |flat|
    ensures Fetched(w, flat, w, base, []) && Stored(flat, flat, w, base, [])
  {
  }

  lemma OneMoreRun(now: seq<Byte>, flat: seq<Byte>, w: seq<Byte>, base: nat, ran: seq<nat>, i: nat)
    requires i < |w| && base + |w| <= |flat|
    ensures Fetched(now, flat, w, base, ran) ==> Fetched(now[i := flat[base + i]], flat, w, base, ran + [i])
    ensures Stored(now, flat, w, base, ran) ==> Stored(now[base + i := w[i]], flat, w, base, ran + [i])
  {
  }

  lemma AllRun(window: seq<Byte>, now: seq<Byte>, flat: seq<Byte>, w: seq<Byte>, base: nat, order: seq<nat>)
    requires IsOrder(order, |w|) && base + |w| <= |flat|
    ensures Fetched(window, flat, w, base, order) ==> window == flat[base..base + |w|]
    ensures Stored(now, flat, w, base, order) ==> now == Overwrite(flat, base, w)
  {
  }

  class ExchangeBlockDevice {
    const blockSize: nat
    const numBlocks: nat
    const disk: array<Byte>       // all tiles, end to end
    const dataBlock: array<Byte>  // tile 0's window on one block
    var rwFlag: int
    var diskPos: int
    var window: nat               // the length of the array over dataBlock
    ghost var log: seq<Exchange>

    ghost predicate Valid() {
      && blockSize > 0
      && disk.Length == blockSize * numBlocks && dataBlock.Length == blockSize
      && disk != dataBlock
    }

    /** The array that the interpreter has over the window is as long as a block. */
    ghost predicate Whole()
      reads this
    {
      window == blockSize
    }

    ghost function Logical(): (flat: seq<Byte>)
      requires Valid()
      reads disk
      ensures |flat| == blockSize * numBlocks
    {
      Unstripe(disk[..], blockSize, numBlocks)
    }

    constructor (blockSize: nat, numBlocks: nat, disk: array<Byte>, dataBlock: array<Byte>)
      requires blockSize > 0 && disk.Length == blockSize * numBlocks && dataBlock.Length == blockSize
      requires disk != dataBlock
      ensures Valid() && this.blockSize == blockSize && this.numBlocks == numBlocks
      ensures this.disk == disk && this.dataBlock == dataBlock && rwFlag == 0 && log == [] && Whole()
    {
      this.blockSize, this.numBlocks := blockSize, numBlocks;
      this.disk, this.dataBlock := disk, dataBlock;
      rwFlag, diskPos, window, log := 0, 0, blockSize, [];
    }

    // ---------- The host's side ----------

    /** The vertex on tile i: it sees only its own slice of the disk and one byte of the block. */
    method ReadWriteVertex(i: nat)
      requires Valid() && i < blockSize && 0 <= diskPos < numBlocks
      modifies disk, dataBlock
      ensures diskPos * blockSize + i < |Logical()|
      ensures rwFlag == READ ==>
                Logical() == old(Logical()) &&
                dataBlock[..] == old(dataBlock[..])[i := Logical()[diskPos * blockSize + i]]
      ensures rwFlag == WRITE ==>
                dataBlock[..] == old(dataBlock[..]) &&
                Logical() == old(Logical())[diskPos * blockSize + i := dataBlock[i]]
    {
      ghost var d, a := disk[..], diskPos * blockSize + i;
      StripeOfBlock(blockSize, numBlocks, diskPos, i);
      var slice := i * numBlocks;
      if rwFlag == 1 {
        dataBlock[i] := disk[slice + diskPos];
        assert disk[..] == d;
      } else if rwFlag == -1 {
        disk[slice + diskPos] := dataBlock[i];
        UnstripeUpdate(d, blockSize, numBlocks, a, dataBlock[i]);
        assert disk[..] == d[slice + diskPos := dataBlock[i]];
      }
    }

    /** One turn of the host loop: the compute set of all tiles, then the interpreter resumes. */
    method LongYield()
      requires Valid() && 0 <= diskPos < numBlocks && (rwFlag == READ || rwFlag == WRITE)
      modifies this`log, disk, dataBlock
      ensures log == old(log) + [Exchange(diskPos, rwFlag)]
      ensures diskPos * blockSize + blockSize <= |Logical()|
      ensures rwFlag == READ ==>
                Logical() == old(Logical()) && dataBlock[..] == Block(Logical(), blockSize, diskPos)
      ensures rwFlag == WRITE ==>
                dataBlock[..] == old(dataBlock[..]) &&
                Logical() == Overwrite(old(Logical()), diskPos * blockSize, dataBlock[..])
    {
      log := log + [Exchange(diskPos, rwFlag)];
      Below(diskPos, numBlocks, blockSize);
      ghost var flat, w, base := Logical(), dataBlock[..], diskPos * blockSize;
      var order := SomeOrder(blockSize);
      RunVertices(order, flat, w, base);
    }

    /** The compute set, in any order: no two vertices share a byte. */
    method RunVertices(order: seq<nat>, ghost flat: seq<Byte>, ghost w: seq<Byte>, ghost base: nat)
      requires Valid() && 0 <= diskPos < numBlocks && (rwFlag == READ || rwFlag == WRITE)
      requires flat == Logical() && w == dataBlock[..] && base == diskPos * blockSize && base + blockSize <= |flat|
      requires IsOrder(order, blockSize)
      modifies disk, dataBlock
      ensures rwFlag == READ ==> Logical() == flat && dataBlock[..] == flat[base..base + blockSize]
      ensures rwFlag == WRITE ==> dataBlock[..] == w && Logical() == Overwrite(flat, base, w)
    {
      hide Unstripe, IsOrder, Overwrite, Fetched, Stored;
      NothingRun(flat, w, base);
      assert order[..0] == [];
      for k := 0 to |order|
        invariant rwFlag == READ ==> Logical() == flat && Fetched(dataBlock[..], flat, w, base, order[..k])
        invariant rwFlag == WRITE ==> dataBlock[..] == w && Stored(Logical(), flat, w, base, order[..k])
      {
        OrderBelow(order, blockSize, k);
        TakeOneMore(order, k);
        OneMoreRun(if rwFlag == READ then dataBlock[..] else Logical(), flat, w, base, order[..k], order[k]);
        ReadWriteVertex(order[k]);
      }
      assert order[..|order|] == order;
      AllRun(dataBlock[..], Logical(), flat, w, base, order);
    }

    // ---------- The interpreter's side ----------

    method ExchangeBlock(blockNum: nat, action: int)
      requires Valid() && blockNum < numBlocks && (action == READ || action == WRITE)
      modifies this`log, this`rwFlag, this`diskPos, disk, dataBlock
      ensures log == old(log) + [Exchange(blockNum, action)]
      ensures blockNum * blockSize + blockSize <= |Logical()|
      ensures action == READ ==>
                Logical() == old(Logical()) && dataBlock[..] == Block(Logical(), blockSize, blockNum)
      ensures action == WRITE ==>
                dataBlock[..] == old(dataBlock[..]) &&
                Logical() == Overwrite(old(Logical()), blockNum * blockSize, dataBlock[..])
    {
      hide Unstripe;
      diskPos := blockNum;
      rwFlag := action;
      LongYield();
    }

    /** Fetch a block and copy n of its bytes, from the given position, to buf[at..at + n]. */
    method Fetch(blockNum: nat, from: nat, buf: array<Byte>, at: nat, n: nat, ghost addr: nat)
      requires Valid() && buf != disk && buf != dataBlock && at + n <= buf.Length && from + n <= blockSize
      requires blockNum < numBlocks && blockNum * blockSize + from == addr + at
      requires Got(Logical(), addr, buf[..], at)
      modifies this`log, this`rwFlag, this`diskPos, disk, dataBlock, buf
      ensures Logical() == old(Logical()) && Got(Logical(), addr, buf[..], at + n)
      ensures log == old(log) + [Exchange(blockNum, READ)]
    {
      hide Unstripe, Got, Block;
      ghost var flat, b0 := Logical(), buf[..];
      ExchangeBlock(blockNum, READ);
      ghost var block := dataBlock[..];
      forall i | 0 <= i < n {
        buf[at + i] := dataBlock[from + i];
      }
      assert buf[..] == b0[..at] + block[from..from + n] + b0[at + n..];
      GotMore(flat, addr, b0, at, blockNum, blockSize, from, n);
    }

    /** The part of a read before the first block boundary. */
    method ReadHead(addr: nat, buf: array<Byte>, ghost log0: seq<Exchange>) returns (writehead: nat, blockNum: nat)
      requires Valid() && buf != disk && buf != dataBlock && log0 == log
      requires addr + buf.Length <= blockSize * numBlocks
      modifies this`log, this`rwFlag, this`diskPos, disk, dataBlock, buf
      ensures Logical() == old(Logical()) && Got(Logical(), addr, buf[..], writehead)
      ensures ReadTo(blockSize, addr, buf.Length, writehead, blockNum, log0, log)
    {
      hide Unstripe, ReadTo, Got;
      var offset := addr % blockSize;
      blockNum := addr / blockSize;
      writehead := 0;
      DivMod(addr, blockSize);
      GotNothing(Logical(), addr, buf[..]);
      ReadBegun(blockSize, addr, buf.Length, log);
      if offset > 0 {
        PartialBlock(addr, blockSize, numBlocks);
        writehead := if blockSize - offset < buf.Length then blockSize - offset else buf.Length;
        Fetch(blockNum, offset, buf, 0, writehead, addr);
        blockNum := blockNum + 1;
      }
    }

    /** The rest of a read: whole blocks, then the beginning of the last one. */
    method ReadTail(addr: nat, buf: array<Byte>, start: nat, firstBlock: nat, ghost log0: seq<Exchange>)
      requires Valid() && buf != disk && buf != dataBlock
      requires addr + buf.Length <= blockSize * numBlocks && start <= buf.Length
      requires Got(Logical(), addr, buf[..], start)
      requires ReadTo(blockSize, addr, buf.Length, start, firstBlock, log0, log)
      modifies this`log, this`rwFlag, this`diskPos, disk, dataBlock, buf
      ensures Logical() == old(Logical()) && Got(Logical(), addr, buf[..], buf.Length)
      ensures log == log0 + ReadLog(blockSize, addr, buf.Length)
    {
      hide Unstripe, ReadTo, Got, ReadLog;
      var len, writehead, blockNum := buf.Length, start, firstBlock;
      while writehead + blockSize <= len
        invariant 0 <= writehead <= len && 0 <= blockNum
        invariant Logical() == old(Logical()) && Got(Logical(), addr, buf[..], writehead)
        invariant ReadTo(blockSize, addr, len, writehead, blockNum, log0, log)
        decreases len - writehead
      {
        ReadNext(blockSize, numBlocks, addr, len, writehead, blockNum, blockSize, log0, log);
        Fetch(blockNum, 0, buf, writehead, blockSize, addr);
        writehead := writehead + blockSize;
        blockNum := blockNum + 1;
      }
      var remainder := len - writehead;
      if remainder > 0 {
        ReadNext(blockSize, numBlocks, addr, len, writehead, blockNum, remainder, log0, log);
        Fetch(blockNum, 0, buf, writehead, remainder, addr);
        blockNum := blockNum + 1;
      }
      ReadFinished(blockSize, addr, len, blockNum, log0, log);
    }

    /** Reading through yields fills buf from the logical disk, changes nothing on it, and
        exchanges each overlapped block exactly once. */
    method ReadBlocks(blockNum: nat, buf: array<Byte>, offset: nat)
      requires Valid() && Whole() && buf != disk && buf != dataBlock
      requires blockNum * blockSize + offset + buf.Length <= blockSize * numBlocks
      modifies this`log, this`rwFlag, this`diskPos, disk, dataBlock, buf
      ensures Logical() == old(Logical())
      ensures var addr := blockNum * blockSize + offset;
              && buf[..] == Logical()[addr..addr + buf.Length]
              && log == old(log) + ReadLog(blockSize, addr, buf.Length)
    {
      hide Unstripe, ReadLog;
      ReadAt(blockNum * blockSize + offset, buf);
    }

    method ReadAt(addr: nat, buf: array<Byte>)
      requires Valid() && buf != disk && buf != dataBlock && addr + buf.Length <= blockSize * numBlocks
      modifies this`log, this`rwFlag, this`diskPos, disk, dataBlock, buf
      ensures Logical() == old(Logical()) && buf[..] == Logical()[addr..addr + buf.Length]
      ensures log == old(log) + ReadLog(blockSize, addr, buf.Length)
    {
      hide Unstripe, ReadTo, Got, ReadLog;
      ghost var log0 := log;
      var writehead, block := ReadHead(addr, buf, log0);
      GotFits(Logical(), addr, buf[..], writehead);
      ReadTail(addr, buf, writehead, block, log0);
      GotAll(Logical(), addr, buf[..]);
    }

    /** Put buf[at..at + n] in the window and store the block; a block written only in part has
        been fetched before. */
    method Store(blockNum: nat, from: nat, buf: array<Byte>, at: nat, n: nat, ghost addr: nat, ghost flat: seq<Byte>)
      requires Valid() && buf != disk && buf != dataBlock && at + n <= buf.Length && from + n <= blockSize
      requires blockNum < numBlocks && blockNum * blockSize + from == addr + at
      requires Put(flat, addr, buf[..], at, Logical())
      requires n == blockSize || (blockNum * blockSize + blockSize <= |Logical()| && dataBlock[..] == Block(Logical(), blockSize, blockNum))
      modifies this`log, this`rwFlag, this`diskPos, disk, dataBlock
      ensures Put(flat, addr, buf[..], at + n, Logical())
      ensures log == old(log) + [Exchange(blockNum, WRITE)]
    {
      hide Unstripe, Put, Overwrite, Block;
      ghost var flat1, w, data := Logical(), dataBlock[..], buf[..];
      Below(blockNum, numBlocks, blockSize);
      PutSize(flat, addr, data, at, flat1);
      forall i | 0 <= i < n {
        dataBlock[from + i] := buf[at + i];
      }
      assert dataBlock[..] == w[..from] + data[at..at + n] + w[from + n..];
      ExchangeBlock(blockNum, WRITE);
      assert buf[..] == data;
      Merged(flat, addr, data, at, flat1, blockNum, w, from, n);
    }

    /** Block erase, ioctl 6: there is nothing to do, so the disk must stay as it is. */
    method EraseBlocks(blockNum: int, n: nat)
      requires Valid()
    {
      for i := 0 to n {
        var _ := Ioctl(6, blockNum + i);
      }
    }

    /** The size of the logical disk in blocks and bytes; an erase is accepted and, as everything
        here, leaves the disk as it is. */
    method Ioctl(op: int, arg: int) returns (r: Option<int>)
      requires Valid()
      ensures op == 4 ==> r.Some? && r.value * blockSize == |Logical()|
      ensures op == 5 ==> r.Some? && r.value == dataBlock.Length
      ensures op == 6 ==> r == Some(0)
      ensures r == IoctlAnswer(op, blockSize, |Logical()|)
    {
      WholeBlocks(blockSize, numBlocks);
      if op == 4 {
        return Some(numBlocks);
      }
      if op == 5 {
        return Some(blockSize);
      }
      if op == 6 {
        return Some(0);
      }
      return None;
    }

    /** The part of a write before the first block boundary: fetch, merge, store. */
    method WriteHead(addr: nat, buf: array<Byte>, ghost flat: seq<Byte>, ghost log0: seq<Exchange>)
      returns (readhead: nat, blockNum: nat)
      requires Valid() && buf != disk && buf != dataBlock && flat == Logical() && log0 == log
      requires addr + buf.Length <= blockSize * numBlocks && FillsFirstBlock(blockSize, addr, buf.Length)
      modifies this`log, this`rwFlag, this`diskPos, disk, dataBlock
      ensures readhead <= buf.Length && (readhead == 0 ==> addr % blockSize == 0)
      ensures Put(flat, addr, buf[..], readhead, Logical())
      ensures WriteSoFar(blockSize, addr, buf.Length, readhead, blockNum, log0, log)
    {
      hide Unstripe, Put, WriteLog, WriteSoFar, Overwrite, StoreLog;
      var offset := addr % blockSize;
      blockNum := addr / blockSize;
      PutNothing(flat, addr, buf[..]);
      WriteBegun(blockSize, addr, buf.Length, log);
      readhead := 0;
      if offset > 0 {
        DivMod(addr, blockSize);
        PartialBlock(addr, blockSize, numBlocks);
        WriteFirst(blockSize, addr, buf.Length, log);
        StoreLogged(blockSize, blockNum, blockSize - offset, log);
        ExchangeBlock(blockNum, READ);
        readhead := blockSize - offset;
        Store(blockNum, offset, buf, 0, readhead, addr, flat);
        blockNum := blockNum + 1;
      }
    }

    /** The rest of a write: whole blocks, then the beginning of the last one. */
    method WriteTail(addr: nat, buf: array<Byte>, start: nat, firstBlock: nat, ghost flat: seq<Byte>, ghost log0: seq<Exchange>)
      requires Valid() && buf != disk && buf != dataBlock
      requires addr + buf.Length <= blockSize * numBlocks && start <= buf.Length && (start == 0 ==> addr % blockSize == 0)
      requires Put(flat, addr, buf[..], start, Logical())
      requires WriteSoFar(blockSize, addr, buf.Length, start, firstBlock, log0, log)
      modifies this`log, this`rwFlag, this`diskPos, disk, dataBlock
      ensures Put(flat, addr, buf[..], buf.Length, Logical())
      ensures log == log0 + WriteLog(blockSize, addr, buf.Length)
    {
      hide Unstripe, Put, WriteLog, WriteSoFar, Overwrite, StoreLog;
      var len, readhead, blockNum := buf.Length, start, firstBlock;
      while readhead + blockSize <= len
        invariant 0 <= readhead <= len && 0 <= blockNum && (readhead == 0 ==> addr % blockSize == 0)
        invariant Put(flat, addr, buf[..], readhead, Logical())
        invariant WriteSoFar(blockSize, addr, len, readhead, blockNum, log0, log)
        decreases len - readhead
      {
        WriteNext(blockSize, numBlocks, addr, len, readhead, blockNum, blockSize, log0, log);
        StoreLogged(blockSize, blockNum, blockSize, log);
        Store(blockNum, 0, buf, readhead, blockSize, addr, flat);
        readhead := readhead + blockSize;
        blockNum := blockNum + 1;
      }
      var remainder := len - readhead;
      if remainder > 0 {
        WriteNext(blockSize, numBlocks, addr, len, readhead, blockNum, remainder, log0, log);
        StoreLogged(blockSize, blockNum, remainder, log);
        ExchangeBlock(blockNum, READ);
        Store(blockNum, 0, buf, readhead, remainder, addr, flat);
      } else {
        WriteDone(blockSize, addr, len, blockNum, log0, log);
      }
    }

    /** Writing through yields overwrites the range on the logical disk, leaves buf alone, stores
        every overlapped block once, and fetches just those it overlaps in part. Data that start
        inside a block and end before it does are followed by zeros up to its end, and shorten the
        window. */
    method WriteBlocks(blockNum: nat, buf: array<Byte>, offset: Option<nat>)
      requires Valid() && Whole() && buf != disk && buf != dataBlock
      requires blockNum * blockSize + offset.GetOr(0) + buf.Length <= blockSize * numBlocks
      modifies this`log, this`rwFlag, this`diskPos, this`window, disk, dataBlock
      ensures var addr := blockNum * blockSize + offset.GetOr(0);
              && addr + buf.Length <= |old(Logical())|
              && Logical() == Written(old(Logical()), blockSize, addr, buf[..])
              && log == old(log) + WrittenLog(blockSize, addr, buf.Length)
              && window == if FillsFirstBlock(blockSize, addr, buf.Length) then blockSize else addr % blockSize + buf.Length
    {
      hide Unstripe, FillsFirstBlock, Written, WrittenLog;
      if offset.None? {
        EraseBlocks(blockNum, buf.Length / blockSize);
      }
      WriteFrom(blockNum * blockSize + offset.GetOr(0), buf);
    }

    method WriteFrom(addr: nat, buf: array<Byte>)
      requires Valid() && Whole() && buf != disk && buf != dataBlock && addr + buf.Length <= blockSize * numBlocks
      modifies this`log, this`rwFlag, this`diskPos, this`window, disk, dataBlock
      ensures addr + buf.Length <= |old(Logical())|
      ensures Logical() == Written(old(Logical()), blockSize, addr, buf[..])
      ensures log == old(log) + WrittenLog(blockSize, addr, buf.Length)
      ensures window == if FillsFirstBlock(blockSize, addr, buf.Length) then blockSize else addr % blockSize + buf.Length
    {
      hide Unstripe, WriteLog, Overwrite, FillsFirstBlock, Written, WrittenLog;
      ghost var flat := Logical();
      if FillsFirstBlock(blockSize, addr, buf.Length) {
        WriteAt(addr, buf);
        FullWrite(flat, blockSize, addr, buf[..]);
      } else {
        WriteShort(addr, buf);
      }
    }

    /** The same statements, when the data end before the block does: the slice that is assigned to
        is longer than they are, so the array over the window shrinks to their end, and what it no
        longer holds is cleared (array_subscr in py/objarray.c). */
    method WriteShort(addr: nat, buf: array<Byte>)
      requires Valid() && Whole() && buf != disk && buf != dataBlock
      requires addr + buf.Length <= blockSize * numBlocks && !FillsFirstBlock(blockSize, addr, buf.Length)
      modifies this`log, this`rwFlag, this`diskPos, this`window, disk, dataBlock
      ensures addr + buf.Length <= |old(Logical())|
      ensures Logical() == Written(old(Logical()), blockSize, addr, buf[..])
      ensures log == old(log) + WrittenLog(blockSize, addr, buf.Length)
      ensures window == addr % blockSize + buf.Length
    {
      hide Unstripe, Put, Overwrite, Block, Written, WrittenLog;
      ghost var flat, data := Logical(), buf[..];
      var offset, blockNum := addr % blockSize, addr / blockSize;
      DivMod(addr, blockSize);
      PartialBlock(addr, blockSize, numBlocks);
      ExchangeBlock(blockNum, READ);
      ghost var w := dataBlock[..];
      forall i | 0 <= i < buf.Length {
        dataBlock[offset + i] := buf[i];
      }
      forall i | offset + buf.Length <= i < blockSize {
        dataBlock[i] := 0;
      }
      window := offset + buf.Length;
      assert dataBlock[..] == w[..offset] + (data + Zeros(blockSize - offset - |data|));
      ExchangeBlock(blockNum, WRITE);
      assert buf[..] == data;
      ShortWrite(flat, blockSize, addr, data, blockNum, w);
    }

    method WriteAt(addr: nat, buf: array<Byte>)
      requires Valid() && buf != disk && buf != dataBlock
      requires addr + buf.Length <= blockSize * numBlocks && FillsFirstBlock(blockSize, addr, buf.Length)
      modifies this`log, this`rwFlag, this`diskPos, disk, dataBlock
      ensures addr + buf.Length <= |old(Logical())|
      ensures Logical() == Overwrite(old(Logical()), addr, buf[..])
      ensures log == old(log) + WriteLog(blockSize, addr, buf.Length)
    {
      hide Unstripe, Put, WriteLog, WriteSoFar, Overwrite;
      ghost var flat, log0 := Logical(), log;
      var readhead, block := WriteHead(addr, buf, flat, log0);
      WriteTail(addr, buf, readhead, block, flat, log0);
      PutAll(flat, addr, buf[..], Logical());
    }
  }

  lemma FullWrite(flat: seq<Byte>, blockSize: nat, addr: nat, data: seq<Byte>)
    requires blockSize > 0 && addr + |data| <= |flat| && FillsFirstBlock(blockSize, addr, |data|)
    ensures Written(flat, blockSize, addr, data) == Overwrite(flat, addr, data)
    ensures WrittenLog(blockSize, addr, |data|) == WriteLog(blockSize, addr, |data|)
  {
  }

  lemma ShortWrite(flat: seq<Byte>, blockSize: nat, addr: nat, data: seq<Byte>, b: nat, w: seq<Byte>)
    requires blockSize > 0 && addr + |data| <= |flat| && !FillsFirstBlock(blockSize, addr, |data|)
    requires b == addr / blockSize && b * blockSize + blockSize <= |flat| && w == Block(flat, blockSize, b)
    ensures Written(flat, blockSize, addr, data)
            == Overwrite(flat, b * blockSize, w[..addr % blockSize] + (data + Zeros(blockSize - addr % blockSize - |data|)))
    ensures WrittenLog(blockSize, addr, |data|) == [Exchange(b, READ), Exchange(b, WRITE)]
  {
    var offset := addr % blockSize;
    var tail := data + Zeros(blockSize - offset - |data|);
    DivMod(addr, blockSize);
    PutNothing(flat, addr, tail);
    Merged(flat, addr, tail, 0, flat, b, w, offset, |tail|);
    hide Overwrite, Block;
    assert tail[0..|tail|] == tail && w[blockSize..] == [];
    assert w[..offset] + tail + [] == w[..offset] + tail;
    PutAll(flat, addr, tail, Overwrite(flat, b * blockSize, w[..offset] + tail));
  }

  /** A write does what it should exactly when its data fill the block they start in, or zeros
      follow them in that block anyhow. */
  lemma WriteIsRight(flat: seq<Byte>, blockSize: nat, addr: nat, data: seq<Byte>)
    requires blockSize > 0 && addr + |data| <= |flat| && (addr / blockSize + 1) * blockSize <= |flat|
    ensures Written(flat, blockSize, addr, data) == Overwrite(flat, addr, data)
            <==> FillsFirstBlock(blockSize, addr, |data|)
                 || forall i | addr + |data| <= i < (addr / blockSize + 1) * blockSize :: flat[i] == 0
  {
    if !FillsFirstBlock(blockSize, addr, |data|) {
      var zeros, end := Zeros(blockSize - addr % blockSize - |data|), (addr / blockSize + 1) * blockSize;
      NextBlock(addr / blockSize, blockSize);
      DivMod(addr, blockSize);
      ZerosOver(flat, addr, data, zeros);
      assert addr + |data| + |zeros| == end;
    }
  }

  lemma ZerosOver(flat: seq<Byte>, addr: nat, data: seq<Byte>, zeros: seq<Byte>)
    requires addr + |data| + |zeros| <= |flat| && forall i | 0 <= i < |zeros| :: zeros[i] == 0
    ensures Overwrite(flat, addr, data + zeros) == Overwrite(flat, addr, data)
            <==> forall i | addr + |data| <= i < addr + |data| + |zeros| :: flat[i] == 0
  {
    var l, r := Overwrite(flat, addr, data + zeros), Overwrite(flat, addr, data);
    hide Overwrite;
    forall i | 0 <= i < |flat|
      ensures l[i] == r[i] <==> (addr + |data| <= i < addr + |data| + |zeros| ==> flat[i] == 0)
    {
      OverwriteAt(flat, addr, data + zeros, i);
      OverwriteAt(flat, addr, data, i);
    }
    if l == r {
      forall i | addr + |data| <= i < addr + |data| + |zeros| ensures flat[i] == 0 {
        assert l[i] == r[i];
      }
    }
  }

  /** An empty write in the middle of the last block clears the rest of it. */
  lemma EmptyWriteClears(blockSize: nat, addr: nat, flat: seq<Byte>)
    requires addr < |flat| == blockSize && addr > 0 && flat[addr] != 0
    ensures Written(flat, blockSize, addr, []) == flat[..addr] + Zeros(blockSize - addr) != flat
  {
    Unpack(blockSize, 0, addr);
    var zeros := Zeros(blockSize - addr);
    assert [] + zeros == zeros;
    assert Overwrite(flat, addr, zeros) == flat[..addr] + zeros;
    assert (flat[..addr] + zeros)[addr] == zeros[0] == 0;
  }

  /** The first n bytes of a read from addr have arrived. */
  ghost predicate Got(flat: seq<Byte>, addr: nat, buf: seq<Byte>, n: nat) {
    n <= |buf| && addr + n <= |flat| && buf[..n] == flat[addr..addr + n]
  }

  lemma GotNothing(flat: seq<Byte>, addr: nat, buf: seq<Byte>)
    requires addr <= |flat|
    ensures Got(flat, addr, buf, 0)
  {
  }

  lemma GotFits(flat: seq<Byte>, addr: nat, buf: seq<Byte>, n: nat)
    requires Got(flat, addr, buf, n)
    ensures n <= |buf|
  {
  }

  lemma GotAll(flat: seq<Byte>, addr: nat, buf: seq<Byte>)
    requires Got(flat, addr, buf, |buf|)
    ensures addr + |buf| <= |flat| && buf == flat[addr..addr + |buf|]
  {
    assert buf == buf[..|buf|];
  }

  lemma GotMore(flat: seq<Byte>, addr: nat, buf: seq<Byte>, at: nat, b: nat, blockSize: nat, from: nat, n: nat)
    requires Got(flat, addr, buf, at) && at + n <= |buf| && b * blockSize + blockSize <= |flat|
    requires b * blockSize + from == addr + at && from + n <= blockSize
    ensures Got(flat, addr, buf[..at] + Block(flat, blockSize, b)[from..from + n] + buf[at + n..], at + n)
  {
    var now := buf[..at] + Block(flat, blockSize, b)[from..from + n] + buf[at + n..];
    Appended(flat, addr, at, b * blockSize, blockSize, from, n);
    assert now[..at + n] == buf[..at] + Block(flat, blockSize, b)[from..from + n];
  }

  lemma Appended(flat: seq<Byte>, addr: nat, at: nat, base: nat, blockSize: nat, from: nat, n: nat)
    requires base + from == addr + at && from + n <= blockSize && base + blockSize <= |flat|
    ensures flat[addr..addr + at] + flat[base..base + blockSize][from..from + n] == flat[addr..addr + at + n]
  {
    SliceOfSlice(flat, base, base + blockSize, from, from + n);
  }

  lemma SliceOfSlice(s: seq<Byte>, a: nat, b: nat, c: nat, d: nat)
    requires a <= b <= |s| && c <= d <= b - a
    ensures s[a..b][c..d] == s[a + c..a + d]
  {
    forall i | 0 <= i < d - c
      ensures s[a..b][c..d][i] == s[a + c..a + d][i]
    {
      assert s[a..b][c + i] == s[a + c + i];
    }
  }

  lemma PartialBlock(addr: nat, blockSize: nat, numBlocks: nat)
    requires blockSize > 0 && addr <= blockSize * numBlocks && addr % blockSize > 0
    ensures addr / blockSize < numBlocks
  {
    if addr == blockSize * numBlocks {
      Unpack(blockSize, numBlocks, 0);
    } else {
      RowBound(addr, blockSize, numBlocks);
    }
  }

  lemma NextBlock(b: nat, blockSize: nat)
    ensures (b + 1) * blockSize == b * blockSize + blockSize
  {
  }

  lemma InRange(b: nat, blockSize: nat, numBlocks: nat, at: nat)
    requires blockSize > 0 && b * blockSize == at < blockSize * numBlocks
    ensures b < numBlocks
  {
    if b > numBlocks {
      Below(numBlocks, b, blockSize);
    }
  }

  /** Where a read stands after w of len bytes, about to fetch block b: b is the block of the
      next byte, and b - 1 the block of the last one (if there is one). */
  ghost predicate ReadSoFar(blockSize: nat, addr: nat, len: nat, w: nat, b: nat)
    requires blockSize > 0
  {
    && (w < len ==> b * blockSize == addr + w)
    && (w > 0 ==> b > 0 && (b - 1) * blockSize <= addr + w - 1 < b * blockSize)
    && (w == 0 ==> b == addr / blockSize + (if addr % blockSize == 0 then 0 else 1))
    && (w == 0 && len > 0 ==> addr % blockSize == 0)
  }

  /** A read has w of its len bytes, the next come from block b, and log has grown from log0 by one
      READ for each block before it. */
  ghost predicate ReadTo(blockSize: nat, addr: nat, len: nat, w: nat, b: nat, log0: seq<Exchange>, log: seq<Exchange>)
    requires blockSize > 0
  {
    && addr / blockSize <= b && w <= len && ReadSoFar(blockSize, addr, len, w, b)
    && log == log0 + Reads(addr / blockSize, b - addr / blockSize)
  }

  lemma ReadBegun(blockSize: nat, addr: nat, len: nat, log: seq<Exchange>)
    requires blockSize > 0
    ensures var offset, b := addr % blockSize, addr / blockSize;
            if offset == 0 then ReadTo(blockSize, addr, len, 0, b, log, log)
            else
              var w := if blockSize - offset < len then blockSize - offset else len;
              ReadTo(blockSize, addr, len, w, b + 1, log, log + [Exchange(b, READ)])
  {
    DivMod(addr, blockSize);
    NextBlock(addr / blockSize, blockSize);
    assert Reads(addr / blockSize, 0) == [];
    ReadsAppend(addr / blockSize, 0, log);
  }

  lemma SoFarNext(blockSize: nat, numBlocks: nat, addr: nat, len: nat, w: nat, b: nat, n: nat)
    requires blockSize > 0 && ReadSoFar(blockSize, addr, len, w, b)
    requires 0 < n <= blockSize && w + n <= len && (n == blockSize || w + n == len)
    requires addr + len <= blockSize * numBlocks
    ensures b < numBlocks && b * blockSize == addr + w && ReadSoFar(blockSize, addr, len, w + n, b + 1)
  {
    NextBlock(b, blockSize);
    InRange(b, blockSize, numBlocks, addr + w);
  }

  lemma ReadNext(blockSize: nat, numBlocks: nat, addr: nat, len: nat, w: nat, b: nat, n: nat,
                 log0: seq<Exchange>, log: seq<Exchange>)
    requires blockSize > 0 && ReadTo(blockSize, addr, len, w, b, log0, log)
    requires 0 < n <= blockSize && w + n <= len && addr + len <= blockSize * numBlocks
    requires n == blockSize || w + n == len
    ensures b < numBlocks && b * blockSize == addr + w
    ensures ReadTo(blockSize, addr, len, w + n, b + 1, log0, log + [Exchange(b, READ)])
  {
    hide Reads, ReadSoFar;
    SoFarNext(blockSize, numBlocks, addr, len, w, b, n);
    LogNext(addr / blockSize, b, log0, log);
  }

  lemma LogNext(first: nat, b: nat, log0: seq<Exchange>, log: seq<Exchange>)
    requires first <= b && log == log0 + Reads(first, b - first)
    ensures log + [Exchange(b, READ)] == log0 + Reads(first, b + 1 - first)
  {
    hide Reads;
    ReadsAppend(first, b - first, log0);
  }

  lemma ReadFinished(blockSize: nat, addr: nat, len: nat, b: nat, log0: seq<Exchange>, log: seq<Exchange>)
    requires blockSize > 0 && ReadTo(blockSize, addr, len, len, b, log0, log)
    ensures log == log0 + ReadLog(blockSize, addr, len)
  {
    DivMod(addr, blockSize);
    if len > 0 {
      QuotientUnique(addr + len - 1, blockSize, b - 1);
      QuotientMonotone(addr, addr + len - 1, blockSize);
    }
  }

  lemma QuotientMonotone(a: nat, b: nat, d: nat)
    requires d > 0 && a <= b
    ensures a / d <= b / d
  {
    DivMod(a, d);
    DivMod(b, d);
    if b / d < a / d {
      Below(b / d, a / d, d);
    }
  }

  // ---------- The flat reference ----------

  /** What a block device of that size says. */
  function IoctlAnswer(op: int, blockSize: nat, size: nat): Option<int>
    requires blockSize > 0
  {
    if op == 4 then Some(size / blockSize) else if op == 5 then Some(blockSize) else if op == 6 then Some(0) else None
  }

  lemma WholeBlocks(blockSize: nat, numBlocks: nat)
    requires blockSize > 0
    ensures blockSize * numBlocks / blockSize == numBlocks
  {
    Unpack(blockSize, numBlocks, 0);
  }

  class TensorBlockDevice {
    const blockSize: nat
    const diskimg: array<Byte>

    constructor (blockSize: nat, diskimg: array<Byte>)
      ensures this.blockSize == blockSize && this.diskimg == diskimg
    {
      this.blockSize, this.diskimg := blockSize, diskimg;
    }

    method ReadBlocks(blockNum: nat, buf: array<Byte>, offset: nat)
      requires buf != diskimg && blockNum * blockSize + offset + buf.Length <= diskimg.Length
      modifies buf
      ensures var addr := blockNum * blockSize + offset;
              buf[..] == diskimg[addr..addr + buf.Length]
    {
      var addr := blockNum * blockSize + offset;
      for i := 0 to buf.Length
        invariant buf[..i] == diskimg[addr..addr + i]
      {
        buf[i] := diskimg[addr + i];
      }
      assert buf[..buf.Length] == buf[..];
    }

    method WriteBlocks(blockNum: nat, buf: array<Byte>, offset: Option<nat>)
      requires buf != diskimg && blockNum * blockSize + offset.GetOr(0) + buf.Length <= diskimg.Length
      modifies diskimg
      ensures diskimg[..] == Overwrite(old(diskimg[..]), blockNum * blockSize + offset.GetOr(0), buf[..])
    {
      var addr := blockNum * blockSize + offset.GetOr(0);
      ghost var flat := diskimg[..];
      for i := 0 to buf.Length
        invariant diskimg[..] == Overwrite(flat, addr, buf[..i])
      {
        diskimg[addr + i] := buf[i];
        OverwriteOneMore(flat, addr, buf[..], i);
        assert buf[..][..i] == buf[..i] && buf[..][..i + 1] == buf[..i + 1];
      }
      assert buf[..buf.Length] == buf[..];
    }

    method Ioctl(op: int, arg: int) returns (r: Option<int>)
      requires blockSize > 0
      ensures r == IoctlAnswer(op, blockSize, diskimg.Length)
    {
      if op == 4 {
        return Some(diskimg.Length / blockSize);
      }
      if op == 5 {
        return Some(blockSize);
      }
      if op == 6 {
        return Some(0);
      }
      return None;
    }
  }

  // ---------- The striped device refines the flat one ----------

  datatype Op =
    | Read(blockNum: nat, len: nat, offset: nat)
    | Write(blockNum: nat, data: seq<Byte>, writeOffset: Option<nat>)
    | Control(op: int, arg: int)

  datatype Reply = Bytes(data: seq<Byte>) | Answer(value: Option<int>)

  ghost predicate InDomain(op: Op, blockSize: nat, size: nat)
    requires blockSize > 0
  {
    match op
    case Read(b, len, offset) => b * blockSize + offset + len <= size
    case Write(b, data, offset) =>
      var addr := b * blockSize + offset.GetOr(0);
      addr + |data| <= size && FillsFirstBlock(blockSize, addr, |data|)
    case Control(_, _) => true
  }

  /** Drive both devices with the same calls: every read and every question
      gets the same reply from both, and after any sequence of calls the two disks hold the same contents. */
  method Replay(striped: ExchangeBlockDevice, flat: TensorBlockDevice, ops: seq<Op>)
    returns (fromStriped: seq<Reply>, fromFlat: seq<Reply>)
    requires striped.Valid() && striped.Whole() && striped.blockSize == flat.blockSize
    requires flat.diskimg != striped.disk && flat.diskimg != striped.dataBlock
    requires striped.Logical() == flat.diskimg[..]
    requires forall op | op in ops :: InDomain(op, striped.blockSize, striped.blockSize * striped.numBlocks)
    modifies striped`log, striped`rwFlag, striped`diskPos, striped`window, striped.disk, striped.dataBlock, flat.diskimg
    ensures fromStriped == fromFlat
    ensures striped.Logical() == flat.diskimg[..]
  {
    hide Unstripe, Overwrite, Written, WrittenLog;
    fromStriped, fromFlat := [], [];
    for k := 0 to |ops|
      invariant fromStriped == fromFlat && striped.Logical() == flat.diskimg[..] && striped.Whole()
    {
      assert ops[k] in ops;
      match ops[k]
      case Read(b, len, offset) =>
        var s, f := new Byte[len], new Byte[len];
        striped.ReadBlocks(b, s, offset);
        flat.ReadBlocks(b, f, offset);
        fromStriped, fromFlat := fromStriped + [Bytes(s[..])], fromFlat + [Bytes(f[..])];
      case Write(b, data, offset) =>
        var buf := new Byte[|data|](i requires 0 <= i < |data| => data[i]);
        FullWrite(flat.diskimg[..], striped.blockSize, b * striped.blockSize + offset.GetOr(0), buf[..]);
        striped.WriteBlocks(b, buf, offset);
        flat.WriteBlocks(b, buf, offset);
      case Control(op, arg) =>
        var s := striped.Ioctl(op, arg);
        var f := flat.Ioctl(op, arg);
        fromStriped, fromFlat := fromStriped + [Answer(s)], fromFlat + [Answer(f)];
    }
  }
}
