/** The exchange between interpreters (multirepl_codelets.cpp and the program of
    multirepl_host.cpp). One input character is processed on every tile until the code it starts
    finishes or calls alltoall; the flags are or-ed into the first one, all send buffers are copied
    to everyone, and the tiles that were waiting resume. The repr of a Python value stands for it. */
module AllToAll {
  import Arith
  import opened Basics
  import opened Bytes

  const NONE: seq<Byte> := [78, 111, 110, 101]     // repr(None)

  /** What a call of alltoall gives back. */
  datatype Outcome = Got(payloads: seq<seq<Byte>>) | ValueError

  /** What the Python code does after the calls so far. */
  datatype Action = Call(payload: seq<Byte>) | Finish(done: bool)

  /** A tile's code: it may depend on how often the character has been processed before, and on
      what the calls in this run gave back. */
  type Script = (nat, seq<Outcome>) -> Action

  // ---------- The payload's place in the buffers ----------

  /** The first half of alltoall: what is sent for a payload. */
  function Sent(payload: seq<Byte>, limit: nat): seq<Byte> {
    if |payload| >= limit then NONE else payload
  }

  function Written(buf: seq<Byte>, payload: seq<Byte>): (r: seq<Byte>)
    requires |payload| < |buf|
    ensures |r| == |buf|
  {
    (payload + buf[|payload|..])[|buf| - 1 := |payload| % 256]
  }

  /** The buffers are arrays of signed characters. */
  function Signed(b: Byte): int {
    if b < 128 then b else b - 256
  }

  /** A Python slice. */
  function Slice(s: seq<Byte>, from: nat, to: int): seq<Byte>
    requires from <= |s|
  {
    var end := if to < 0 then to + |s| else if to > |s| then |s| else to;
    if end < from then [] else s[from..end]
  }

  /** The payload at place i. */
  function Read(recv: seq<Byte>, i: nat, limit: nat): seq<Byte>
    requires limit > 0 && i * limit + limit <= |recv|
  {
    Slice(recv, i * limit, i * limit + Signed(recv[i * limit + limit - 1]))
  }

  lemma OneMore(i: nat, n: nat)
    ensures (i + 1) * n == i * n + n
  {
  }

  lemma Fits(i: nat, n: nat, limit: nat, len: nat)
    requires i < n && n * limit <= len
    ensures i * limit + limit == (i + 1) * limit <= len
  {
    OneMore(i, limit);
    Arith.Below(i, n, limit);
  }

  lemma {:induction false} FlatLength(bufs: seq<seq<Byte>>, limit: nat)
    requires forall j | 0 <= j < |bufs| :: |bufs[j]| == limit
    ensures |Flat(bufs)| == |bufs| * limit
    decreases |bufs|
  {
    if bufs == [] {
    } else {
      FlatLength(bufs[1..], limit);
      OneMore(|bufs| - 1, limit);
    }
  }

  lemma FlatAt(bufs: seq<seq<Byte>>, i: nat, limit: nat)
    requires i < |bufs| && forall j | 0 <= j < |bufs| :: |bufs[j]| == limit
    ensures i * limit + limit <= |Flat(bufs)| && Flat(bufs)[i * limit..i * limit + limit] == bufs[i]
  {
    FlatLength(bufs[..i], limit);
    FlatParts(bufs, i);
    MiddleSlice(Flat(bufs[..i]), bufs[i], Flat(bufs[i + 1..]));
  }

  lemma MiddleSlice(a: seq<Byte>, b: seq<Byte>, c: seq<Byte>)
    ensures |a| + |b| <= |a + b + c| && (a + b + c)[|a|..|a| + |b|] == b
  {
  }

  lemma SizeIsWritten(buf: seq<Byte>, payload: seq<Byte>)
    requires |payload| < |buf|
    ensures Written(buf, payload)[|buf| - 1] == |payload| % 256
  {
  }

  /** The size of a payload that fits reads back exactly when it fits a signed byte. */
  lemma SizeReadsBack(buf: seq<Byte>, payload: seq<Byte>)
    requires |payload| < |buf|
    ensures Signed(Written(buf, payload)[|buf| - 1]) == |payload| <==> |payload| < 128
  {
  }

  /** How long the slice for a payload of this size is: a size that reads negative counts from the
      end of all buffers. */
  function ReadLength(i: nat, n: nat, limit: nat, size: nat): int {
    var v := Signed(size % 256);
    if v >= 0 then v else if i == 0 then n * limit + v else 0
  }

  /** Which sizes are read back right at place i of n. */
  predicate ReadsBack(n: nat, limit: nat, size: nat) {
    size < 128 || (n == 1 && size % 256 >= 128 && limit == size - size % 256 + 256)
  }

  lemma RightLength(i: nat, n: nat, limit: nat, size: nat)
    requires size < limit && i < n
    ensures ReadLength(i, n, limit, size) >= 0
    ensures ReadLength(i, n, limit, size) == size <==> ReadsBack(n, limit, size)
  {
    if n > 1 {
      Arith.Below(1, n, limit);
    }
  }

  lemma ReadSlice(recv: seq<Byte>, i: nat, n: nat, limit: nat, size: nat)
    requires |recv| == n * limit && i < n && size < limit && i * limit + limit <= |recv|
    requires recv[i * limit + limit - 1] == size % 256
    ensures var l := ReadLength(i, n, limit, size);
            0 <= i * limit + l <= |recv| && l >= 0 && Read(recv, i, limit) == recv[i * limit..i * limit + l]
  {
    RightLength(i, n, limit, size);
    if i > 0 {
      Arith.Below(0, i, limit);
    }
  }

  /** A payload that fits comes back exactly when its size is below 128; or when there is but one
      buffer, and the size, read negative, ends the slice where the payload ends. */
  lemma ReadIsWritten(recv: seq<Byte>, i: nat, n: nat, limit: nat, was: seq<Byte>, payload: seq<Byte>)
    requires |payload| < limit == |was| && i < n && |recv| == n * limit && i * limit + limit <= |recv|
    requires recv[i * limit..i * limit + limit] == Written(was, payload)
    ensures Read(recv, i, limit) == payload <==> ReadsBack(n, limit, |payload|)
  {
    var at, size := i * limit, |payload|;
    assert recv[at + limit - 1] == Written(was, payload)[limit - 1];
    assert recv[at..at + size] == Written(was, payload)[..size] == payload;
    RightLength(i, n, limit, size);
    ReadSlice(recv, i, n, limit, size);
    hide ReadLength, ReadsBack, Read, Written;
  }

  function ReadAll(recv: seq<Byte>, n: nat, limit: nat): (r: seq<seq<Byte>>)
    requires limit > 0 && n * limit <= |recv|
    ensures |r| == n
  {
    if n == 0 then [] else
      OneMore(n - 1, limit);
      ReadAll(recv, n - 1, limit) + [Read(recv, n - 1, limit)]
  }

  // ---------- A tile ----------

  datatype Tile = Tile(
    done: bool,             // doneFlag
    coroutine: bool,        // coroutineFlag
    live: bool,             // checkpoint_is_live
    inFirst: bool,          // the exit environment was set by RuntimeVertex<true>
    sendFailed: bool,       // alltoall's send_failed
    buf: seq<Byte>,         // commsOutBuf
    history: seq<Outcome>,  // of the run in progress, or of the last one
    starts: nat)            // how often the interpreter was given a character

  /** The code runs on to its next call, or to its end. A call is seen by the frame that set the
      exit environment. */
  function Act(t: Tile, script: Script): (r: Tile)
    requires |t.buf| > 4
    ensures |r.buf| == |t.buf|
  {
    match script(t.starts, t.history)
    case Call(p) =>
      t.(buf := Written(t.buf, Sent(p, |t.buf|)), sendFailed := |p| >= |t.buf|, live := true,
         coroutine := t.inFirst || t.coroutine)
    case Finish(d) =>
      t.(done := d, coroutine := false)
  }

  function OutcomeOf(failed: bool, recv: seq<Byte>, limit: nat): Outcome
    requires limit > 0
  {
    if failed then ValueError
    else
      Arith.DivMod(|recv|, limit);
      Got(ReadAll(recv, |recv| / limit, limit))
  }

  /** RuntimeVertex.compute. */
  function Computed(t: Tile, script: Script, first: bool, recv: seq<Byte>, c: Byte): (r: Tile)
    requires |t.buf| > 4
    ensures |r.buf| == |t.buf|
  {
    if !first && t.live then
      Act(t.(live := false, history := t.history + [OutcomeOf(t.sendFailed, recv, |t.buf|)]), script)
    else
      var t' := t.(live := false, inFirst := first);
      if t.done || (!first && !t.coroutine) then t'
      else if c == 0 then t'.(done := true, coroutine := false, starts := t.starts + 1)
      else Act(t'.(starts := t.starts + 1, history := []), script)
  }

  // ---------- The device ----------

  ghost predicate Well(tiles: seq<Tile>, scripts: seq<Script>, limit: nat) {
    && tiles != [] && |tiles| == |scripts| && limit > 4
    && forall i | 0 <= i < |tiles| :: |tiles[i].buf| == limit
  }

  function Bufs(tiles: seq<Tile>): seq<seq<Byte>> {
    seq(|tiles|, i requires 0 <= i < |tiles| => tiles[i].buf)
  }

  function AllComputed(tiles: seq<Tile>, scripts: seq<Script>, first: bool, recv: seq<Byte>, c: Byte): seq<Tile>
    requires |tiles| == |scripts| && forall i | 0 <= i < |tiles| :: |tiles[i].buf| > 4
  {
    seq(|tiles|, i requires 0 <= i < |tiles| => Computed(tiles[i], scripts[i], first, recv, c))
  }

  predicate AnyFlag(tiles: seq<Tile>) {
    exists i | 0 <= i < |tiles| :: tiles[i].coroutine
  }

  /** Any.compute writes the or of the flags over the first tile's own. */
  function Flagged(tiles: seq<Tile>): seq<Tile>
    requires tiles != []
  {
    tiles[0 := tiles[0].(coroutine := AnyFlag(tiles))]
  }

  /** The device after the first run of a character and r exchanges. */
  ghost function After(tiles: seq<Tile>, scripts: seq<Script>, limit: nat, recv: seq<Byte>, c: Byte, r: nat): (t: seq<Tile>)
    requires Well(tiles, scripts, limit)
    ensures Well(t, scripts, limit) && |t| == |tiles|
  {
    if r == 0 then AllComputed(tiles, scripts, true, recv, c)
    else
      var s := Flagged(After(tiles, scripts, limit, recv, c, r - 1));
      AllComputed(s, scripts, false, Flat(Bufs(s)), c)
  }

  // ---------- The rounds as they are meant ----------

  /** A tile's run without flags: its code goes from call to call, in step with the others. */
  datatype Node = Node(finished: bool, done: bool, sendFailed: bool, buf: seq<Byte>, history: seq<Outcome>)

  function Acted(n: Node, starts: nat, script: Script): (r: Node)
    requires |n.buf| > 4
    ensures |r.buf| == |n.buf| && r.history == n.history
  {
    match script(starts, n.history)
    case Call(p) => n.(buf := Written(n.buf, Sent(p, |n.buf|)), sendFailed := |p| >= |n.buf|)
    case Finish(d) => n.(finished := true, done := d)
  }

  function Began(t: Tile, script: Script, c: Byte): (r: Node)
    requires |t.buf| > 4
    ensures |r.buf| == |t.buf|
  {
    // the character 0 ends the interpreter
    if t.done || c == 0 then Node(true, true, false, t.buf, [])
    else Acted(Node(false, false, false, t.buf, []), t.starts + 1, script)
  }

  /** An exchange gives everyone every buffer; a finished tile's keeps its last payload. */
  function Resumed(n: Node, starts: nat, script: Script, recv: seq<Byte>): (r: Node)
    requires |n.buf| > 4
    ensures |r.buf| == |n.buf|
  {
    if n.finished then n
    else Acted(n.(history := n.history + [OutcomeOf(n.sendFailed, recv, |n.buf|)]), starts, script)
  }

  function NodeBufs(nodes: seq<Node>): seq<seq<Byte>> {
    seq(|nodes|, i requires 0 <= i < |nodes| => nodes[i].buf)
  }

  /** All tiles in step, after r exchanges. */
  ghost function Lockstep(tiles: seq<Tile>, scripts: seq<Script>, limit: nat, c: Byte, r: nat): (n: seq<Node>)
    requires Well(tiles, scripts, limit)
    ensures |n| == |tiles| && forall i | 0 <= i < |n| :: |n[i].buf| == limit
    decreases r
  {
    if r == 0 then seq(|tiles|, i requires 0 <= i < |tiles| => Began(tiles[i], scripts[i], c))
    else
      var was := Lockstep(tiles, scripts, limit, c, r - 1);
      var recv := Flat(NodeBufs(was));
      seq(|tiles|, i requires 0 <= i < |tiles| => Resumed(was[i], tiles[i].starts + 1, scripts[i], recv))
  }

  /** The tile is where the meant round has it, and its flag says whether it waits. */
  ghost predicate Agrees(t: Tile, n: Node, was: Tile, c: Byte) {
    && t.buf == n.buf && t.done == n.done && t.live == !n.finished && t.coroutine == !n.finished
    && (was.done ==> n.finished)
    && (!was.done ==> t.starts == was.starts + 1)
    && (!was.done && c != 0 ==> t.history == n.history && (t.live ==> t.inFirst && t.sendFailed == n.sendFailed))
    && (c == 0 ==> n.finished)
  }

  ghost predicate AllAgree(t: seq<Tile>, n: seq<Node>, tiles: seq<Tile>, c: Byte) {
    && |t| == |n| == |tiles|
    && forall i {:trigger t[i]} | 0 <= i < |t| :: Agrees(t[i], n[i], tiles[i], c)
  }

  lemma FirstAgrees(was: Tile, script: Script, recv: seq<Byte>, c: Byte)
    requires |was.buf| > 4 && !was.coroutine
    ensures Agrees(Computed(was, script, true, recv, c), Began(was, script, c), was, c)
  {
    hide Written, Sent, OutcomeOf;
  }

  lemma NextAgrees(t: Tile, n: Node, was: Tile, script: Script, recv: seq<Byte>, c: Byte)
    requires |t.buf| > 4 && Agrees(t, n, was, c)
    ensures Agrees(Computed(t, script, false, recv, c), Resumed(n, was.starts + 1, script, recv), was, c)
  {
    hide Written, Sent, OutcomeOf;
  }

  lemma SameBufs(t: seq<Tile>, n: seq<Node>, tiles: seq<Tile>, c: Byte)
    requires AllAgree(t, n, tiles, c)
    ensures Bufs(t) == NodeBufs(n)
    ensures AnyFlag(t) <==> exists i | 0 <= i < |n| :: !n[i].finished
    ensures n != [] && !n[0].finished ==> Flagged(t) == t
  {
    forall i | 0 <= i < |t| ensures t[i].buf == n[i].buf && t[i].coroutine == !n[i].finished {
    }
    if n != [] && !n[0].finished {
      assert t[0].coroutine;
    }
  }

  /** Up to the round in which the first tile finishes, the device does what is meant. */
  ghost predicate FirstTileCalls(tiles: seq<Tile>, scripts: seq<Script>, limit: nat, c: Byte, r: nat)
    requires Well(tiles, scripts, limit)
  {
    forall q {:trigger Lockstep(tiles, scripts, limit, c, q)} | 0 <= q < r :: !Lockstep(tiles, scripts, limit, c, q)[0].finished
  }

  lemma {:induction false} InStep(tiles: seq<Tile>, scripts: seq<Script>, limit: nat, recv: seq<Byte>, c: Byte, r: nat)
    requires Well(tiles, scripts, limit) && FirstTileCalls(tiles, scripts, limit, c, r)
    requires forall i | 0 <= i < |tiles| :: !tiles[i].coroutine
    ensures AllAgree(After(tiles, scripts, limit, recv, c, r), Lockstep(tiles, scripts, limit, c, r), tiles, c)
    decreases r
  {
    hide Agrees, Computed, Began, Resumed;
    var t, n := After(tiles, scripts, limit, recv, c, r), Lockstep(tiles, scripts, limit, c, r);
    if r == 0 {
      forall i | 0 <= i < |t| ensures Agrees(t[i], n[i], tiles[i], c) {
        FirstAgrees(tiles[i], scripts[i], recv, c);
      }
    } else {
      InStep(tiles, scripts, limit, recv, c, r - 1);
      var t', n' := After(tiles, scripts, limit, recv, c, r - 1), Lockstep(tiles, scripts, limit, c, r - 1);
      SameBufs(t', n', tiles, c);
      forall i | 0 <= i < |t| ensures Agrees(t[i], n[i], tiles[i], c) {
        NextAgrees(t'[i], n'[i], tiles[i], scripts[i], Flat(NodeBufs(n')), c);
      }
    }
  }

  /** Nobody calls more often than the first tile, which finishes after k calls. */
  ghost predicate LastRound(tiles: seq<Tile>, scripts: seq<Script>, limit: nat, c: Byte, k: nat)
    requires Well(tiles, scripts, limit)
  {
    && FirstTileCalls(tiles, scripts, limit, c, k)
    && forall i | 0 <= i < |tiles| :: Lockstep(tiles, scripts, limit, c, k)[i].finished
  }

  /** When the first tile has finished, the loop goes on exactly if some tile still calls. Then the
      first tile's flag is set for it: it is given the same character again, or, if its code had
      ended the interpreter, its flag is never cleared and the loop never ends. */
  lemma FirstTileMustCallMost(tiles: seq<Tile>, scripts: seq<Script>, limit: nat, recv: seq<Byte>, c: Byte, k: nat)
    requires Well(tiles, scripts, limit) && FirstTileCalls(tiles, scripts, limit, c, k)
    requires forall i | 0 <= i < |tiles| :: !tiles[i].coroutine
    requires Lockstep(tiles, scripts, limit, c, k)[0].finished && !tiles[0].done
    ensures var t := After(tiles, scripts, limit, recv, c, k);
            && (AnyFlag(t) <==> !LastRound(tiles, scripts, limit, c, k))
            && (AnyFlag(t) && !t[0].done ==> After(tiles, scripts, limit, recv, c, k + 1)[0].starts == tiles[0].starts + 2)
            && (AnyFlag(t) && t[0].done ==> forall r | r >= k :: AnyFlag(After(tiles, scripts, limit, recv, c, r)))
  {
    hide Lockstep;
    InStep(tiles, scripts, limit, recv, c, k);
    var t, n := After(tiles, scripts, limit, recv, c, k), Lockstep(tiles, scripts, limit, c, k);
    SameBufs(t, n, tiles, c);
    assert Agrees(t[0], n[0], tiles[0], c);
    if AnyFlag(t) {
      if t[0].done {
        forall r | r >= k ensures AnyFlag(After(tiles, scripts, limit, recv, c, r)) {
          NeverEnds(tiles, scripts, limit, recv, c, k, r);
        }
      } else {
        GivenAgain(Flagged(t)[0], scripts[0], Flat(Bufs(Flagged(t))), c);
      }
    }
  }

  lemma GivenAgain(t: Tile, script: Script, recv: seq<Byte>, c: Byte)
    requires |t.buf| > 4 && !t.live && !t.done && t.coroutine
    ensures Computed(t, script, false, recv, c).starts == t.starts + 1
  {
  }

  /** Some flag is up, and the first tile's interpreter has ended. */
  ghost predicate Stuck(t: seq<Tile>) {
    t != [] && AnyFlag(t) && t[0].done && !t[0].live
  }

  lemma StaysStuck(t: seq<Tile>, scripts: seq<Script>, recv: seq<Byte>, c: Byte)
    requires Stuck(t) && |t| == |scripts| && forall i | 0 <= i < |t| :: |t[i].buf| > 4
    ensures Stuck(AllComputed(Flagged(t), scripts, false, recv, c))
  {
    var t' := AllComputed(Flagged(t), scripts, false, recv, c);
    assert t'[0].coroutine;
  }

  lemma {:induction false} NeverEnds(tiles: seq<Tile>, scripts: seq<Script>, limit: nat, recv: seq<Byte>, c: Byte, k: nat, r: nat)
    requires Well(tiles, scripts, limit) && r >= k && Stuck(After(tiles, scripts, limit, recv, c, k))
    ensures Stuck(After(tiles, scripts, limit, recv, c, r))
    decreases r
  {
    hide Stuck, AllComputed, Flagged, Flat, Bufs;
    if r > k {
      NeverEnds(tiles, scripts, limit, recv, c, k, r - 1);
      var t := After(tiles, scripts, limit, recv, c, r - 1);
      StaysStuck(t, scripts, Flat(Bufs(Flagged(t))), c);
    }
  }

  function Fresh(limit: nat): Tile {
    Tile(false, false, false, false, false, seq(limit, _ => 0), [], 0)
  }

  function CallsOnce(payload: seq<Byte>): Script {
    (starts, history) => if history == [] then Call(payload) else Finish(false)
  }

  function CallsNever(done: bool): Script {
    (starts, history) => Finish(done)
  }

  /** Two tiles of which only the second calls: the first is given the character a second time, or,
      when it ended its interpreter, the loop never ends. */
  lemma OnlyTheSecondCalls(done: bool, limit: nat, recv: seq<Byte>, payload: seq<Byte>)
    requires limit > 4
    ensures var tiles, scripts := [Fresh(limit), Fresh(limit)], [CallsNever(done), CallsOnce(payload)];
            if done then forall r :: AnyFlag(After(tiles, scripts, limit, recv, 10, r))
            else After(tiles, scripts, limit, recv, 10, 1)[0].starts == 2
  {
    var tiles, scripts := [Fresh(limit), Fresh(limit)], [CallsNever(done), CallsOnce(payload)];
    var n := Lockstep(tiles, scripts, limit, 10, 0);
    assert n[0].finished && !n[1].finished;
    FirstTileMustCallMost(tiles, scripts, limit, recv, 10, 0);
    var t := After(tiles, scripts, limit, recv, 10, 0);
    assert t[0].done == done && t[1].coroutine;
    assert AnyFlag(t);
  }

  // ---------- What every call gets ----------

  /** The payload tile i hands to the call after r exchanges. */
  ghost function Payload(tiles: seq<Tile>, scripts: seq<Script>, limit: nat, c: Byte, r: nat, i: nat): seq<Byte>
    requires Well(tiles, scripts, limit) && i < |tiles|
  {
    var a := scripts[i](tiles[i].starts + 1, Lockstep(tiles, scripts, limit, c, r)[i].history);
    if a.Call? then a.payload else []
  }

  /** Every tile makes at least r calls. */
  ghost predicate AllCall(tiles: seq<Tile>, scripts: seq<Script>, limit: nat, c: Byte, r: nat)
    requires Well(tiles, scripts, limit)
  {
    forall q, i {:trigger Lockstep(tiles, scripts, limit, c, q)[i]} | 0 <= q < r && 0 <= i < |tiles| ::
      !Lockstep(tiles, scripts, limit, c, q)[i].finished
  }

  /** What round r gives tile i: the payloads of all tiles in order, the too long ones replaced by
      None; or an error, if its own was too long. */
  ghost function Delivered(tiles: seq<Tile>, scripts: seq<Script>, limit: nat, c: Byte, r: nat, i: nat): Outcome
    requires Well(tiles, scripts, limit) && i < |tiles|
  {
    if |Payload(tiles, scripts, limit, c, r, i)| >= limit then ValueError
    else Got(AllSent(tiles, scripts, limit, c, r))
  }

  ghost function AllSent(tiles: seq<Tile>, scripts: seq<Script>, limit: nat, c: Byte, r: nat): (s: seq<seq<Byte>>)
    requires Well(tiles, scripts, limit)
    ensures |s| == |tiles|
  {
    seq(|tiles|, j requires 0 <= j < |tiles| => Sent(Payload(tiles, scripts, limit, c, r, j), limit))
  }

  /** Which is its repr, or the repr of None, by the name of its characters. */
  lemma WhatIsSent(tiles: seq<Tile>, scripts: seq<Script>, limit: nat, c: Byte, r: nat, j: nat)
    requires Well(tiles, scripts, limit) && j < |tiles|
    ensures var p, sent := Payload(tiles, scripts, limit, c, r, j), AllSent(tiles, scripts, limit, c, r)[j];
            if |p| < limit then sent == p else sent == ['N' as int, 'o' as int, 'n' as int, 'e' as int]
  {
    hide Payload;
  }

  /** Whoever waits has its payload in its buffer. */
  lemma {:induction false} PayloadIsWritten(tiles: seq<Tile>, scripts: seq<Script>, limit: nat, c: Byte, r: nat, i: nat)
    returns (was: seq<Byte>)
    requires Well(tiles, scripts, limit) && i < |tiles| && !Lockstep(tiles, scripts, limit, c, r)[i].finished
    ensures var n, p := Lockstep(tiles, scripts, limit, c, r)[i], Payload(tiles, scripts, limit, c, r, i);
            |was| == limit && n.buf == Written(was, Sent(p, limit)) && n.sendFailed == (|p| >= limit)
  {
    hide Written, Sent, OutcomeOf;
    if r == 0 {
      was := tiles[i].buf;
    } else {
      was := Lockstep(tiles, scripts, limit, c, r - 1)[i].buf;
    }
  }

  lemma {:induction false} ReadAllAt(recv: seq<Byte>, n: nat, limit: nat, j: nat)
    requires limit > 0 && n * limit <= |recv| && j < n
    ensures j * limit + limit <= |recv| && ReadAll(recv, n, limit)[j] == Read(recv, j, limit)
    decreases n
  {
    hide Read;
    Fits(j, n, limit, |recv|);
    Fits(n - 1, n, limit, |recv|);
    if j < n - 1 {
      ReadAllAt(recv, n - 1, limit, j);
    }
  }

  /** What is sent in round r is read back right. */
  ghost predicate AllReadBack(tiles: seq<Tile>, scripts: seq<Script>, limit: nat, c: Byte, r: nat)
    requires Well(tiles, scripts, limit)
  {
    var sent := AllSent(tiles, scripts, limit, c, r);
    forall j | 0 <= j < |sent| :: ReadsBack(|sent|, limit, |sent[j]|)
  }

  /** As it always is in buffers of up to 128 bytes. */
  lemma SmallBuffersReadBack(tiles: seq<Tile>, scripts: seq<Script>, limit: nat, c: Byte, r: nat)
    requires Well(tiles, scripts, limit) && limit <= 128
    ensures AllReadBack(tiles, scripts, limit, c, r)
  {
    hide Payload;
  }

  lemma PayloadIsRead(tiles: seq<Tile>, scripts: seq<Script>, limit: nat, c: Byte, r: nat, j: nat)
    requires Well(tiles, scripts, limit) && j < |tiles| && !Lockstep(tiles, scripts, limit, c, r)[j].finished
    ensures var recv, sent := Flat(NodeBufs(Lockstep(tiles, scripts, limit, c, r))), Sent(Payload(tiles, scripts, limit, c, r, j), limit);
            && |recv| == |tiles| * limit
            && (ReadAll(recv, |tiles|, limit)[j] == sent <==> ReadsBack(|tiles|, limit, |sent|))
  {
    var bufs := NodeBufs(Lockstep(tiles, scripts, limit, c, r));
    var was := PayloadIsWritten(tiles, scripts, limit, c, r, j);
    hide Lockstep, Payload, Written, ReadAll, Flat, Read, ReadsBack;
    FlatLength(bufs, limit);
    ReadAllAt(Flat(bufs), |tiles|, limit, j);
    FlatAt(bufs, j, limit);
    ReadIsWritten(Flat(bufs), j, |tiles|, limit, was, Sent(Payload(tiles, scripts, limit, c, r, j), limit));
  }

  /** A call's outcome is all that was sent in its round exactly when that is read back right; or it
      is an error, since its own payload was too long. */
  ghost predicate RightWhenReadBack(o: Outcome, tiles: seq<Tile>, scripts: seq<Script>, limit: nat, c: Byte, r: nat, i: nat)
    requires Well(tiles, scripts, limit) && i < |tiles|
  {
    o == Delivered(tiles, scripts, limit, c, r, i)
    <==> |Payload(tiles, scripts, limit, c, r, i)| >= limit || AllReadBack(tiles, scripts, limit, c, r)
  }

  /** A round in which all tiles wait delivers all payloads to a tile exactly when they are read back
      right, or its own was too long and raises. */
  lemma RoundDelivers(tiles: seq<Tile>, scripts: seq<Script>, limit: nat, c: Byte, r: nat, i: nat)
    requires Well(tiles, scripts, limit) && i < |tiles|
    requires forall j | 0 <= j < |tiles| :: !Lockstep(tiles, scripts, limit, c, r)[j].finished
    ensures var was, h := Lockstep(tiles, scripts, limit, c, r)[i].history, Lockstep(tiles, scripts, limit, c, r + 1)[i].history;
            |h| == |was| + 1 && h[..|was|] == was && RightWhenReadBack(h[|was|], tiles, scripts, limit, c, r, i)
  {
    hide Lockstep, Payload, Written, ReadAll, Flat, Sent, OutcomeOf, ReadsBack;
    var nodes := Lockstep(tiles, scripts, limit, c, r);
    var _ := PayloadIsWritten(tiles, scripts, limit, c, r, i);
    FlatLength(NodeBufs(nodes), limit);
    AllRead(nodes[i].sendFailed, Flat(NodeBufs(nodes)), |tiles|, limit);
    RoundAppends(tiles, scripts, limit, c, r, i);
    var got := ReadAll(Flat(NodeBufs(nodes)), |tiles|, limit);
    var sent := AllSent(tiles, scripts, limit, c, r);
    forall j | 0 <= j < |tiles| ensures got[j] == sent[j] <==> ReadsBack(|tiles|, limit, |sent[j]|) {
      PayloadIsRead(tiles, scripts, limit, c, r, j);
    }
    SameWhenReadBack(got, sent, limit);
  }

  lemma SameWhenReadBack(got: seq<seq<Byte>>, sent: seq<seq<Byte>>, limit: nat)
    requires |got| == |sent|
    requires forall j | 0 <= j < |sent| :: got[j] == sent[j] <==> ReadsBack(|sent|, limit, |sent[j]|)
    ensures got == sent <==> forall j | 0 <= j < |sent| :: ReadsBack(|sent|, limit, |sent[j]|)
  {
    hide ReadsBack;
  }

  lemma AllRead(failed: bool, recv: seq<Byte>, n: nat, limit: nat)
    requires limit > 0 && |recv| == n * limit
    ensures OutcomeOf(failed, recv, limit) == if failed then ValueError else Got(ReadAll(recv, n, limit))
  {
    hide ReadAll;
    Arith.Unpack(limit, n, 0);
  }

  lemma RoundAppends(tiles: seq<Tile>, scripts: seq<Script>, limit: nat, c: Byte, r: nat, i: nat)
    requires Well(tiles, scripts, limit) && i < |tiles| && !Lockstep(tiles, scripts, limit, c, r)[i].finished
    ensures var n := Lockstep(tiles, scripts, limit, c, r);
            Lockstep(tiles, scripts, limit, c, r + 1)[i].history
            == n[i].history + [OutcomeOf(n[i].sendFailed, Flat(NodeBufs(n)), limit)]
  {
    hide OutcomeOf, Flat;
  }

  lemma NoCallYet(tiles: seq<Tile>, scripts: seq<Script>, limit: nat, c: Byte, i: nat)
    requires Well(tiles, scripts, limit) && i < |tiles|
    ensures Lockstep(tiles, scripts, limit, c, 0)[i].history == []
  {
  }

  lemma AllWait(tiles: seq<Tile>, scripts: seq<Script>, limit: nat, c: Byte, k: nat)
    requires Well(tiles, scripts, limit) && AllCall(tiles, scripts, limit, c, k + 1)
    ensures AllCall(tiles, scripts, limit, c, k)
    ensures forall j | 0 <= j < |tiles| :: !Lockstep(tiles, scripts, limit, c, k)[j].finished
  {
    hide Lockstep;
  }

  /** When all tiles make k calls, the r-th call on every tile gives the r-th payloads of all the
      tiles, and nothing of another round, exactly when these are read back right; or it raises for
      its own. */
  lemma {:induction false} EveryCallGetsEveryPayload(tiles: seq<Tile>, scripts: seq<Script>, limit: nat, c: Byte, k: nat, i: nat)
    requires Well(tiles, scripts, limit) && i < |tiles| && AllCall(tiles, scripts, limit, c, k)
    ensures var h := Lockstep(tiles, scripts, limit, c, k)[i].history;
            |h| == k && forall r | 0 <= r < k :: RightWhenReadBack(h[r], tiles, scripts, limit, c, r, i)
    decreases k
  {
    hide Lockstep, Well, RightWhenReadBack, AllCall;
    if k == 0 {
      NoCallYet(tiles, scripts, limit, c, i);
    } else {
      AllWait(tiles, scripts, limit, c, k - 1);
      EveryCallGetsEveryPayload(tiles, scripts, limit, c, k - 1, i);
      RoundDelivers(tiles, scripts, limit, c, k - 1, i);
      var was, h := Lockstep(tiles, scripts, limit, c, k - 1)[i].history, Lockstep(tiles, scripts, limit, c, k)[i].history;
      assert forall r | 0 <= r < k - 1 :: h[r] == h[..k - 1][r];
    }
  }

  /** With the buffers of 64 bytes, a repr of 63 is delivered and one of 64 raises an error. */
  lemma SixtyFourIsTooLong(payload: seq<Byte>)
    requires 63 <= |payload| <= 64
    ensures Lockstep([Fresh(64)], [CallsOnce(payload)], 64, 10, 1)[0].history
            == [if |payload| == 63 then Got([payload]) else ValueError]
  {
    var tiles, scripts := [Fresh(64)], [CallsOnce(payload)];
    var n := Lockstep(tiles, scripts, 64, 10, 0);
    assert !n[0].finished && n[0].history == [];
    SmallBuffersReadBack(tiles, scripts, 64, 10, 0);
    RoundDelivers(tiles, scripts, 64, 10, 0, 0);
    assert Payload(tiles, scripts, 64, 10, 0, 0) == payload;
    assert AllSent(tiles, scripts, 64, 10, 0) == [Sent(payload, 64)];
  }

  /** Two tiles with buffers of 256 bytes that both send 128: the second payload comes back empty,
      and the first one too long. */
  lemma OneHundredAndTwentyEight(payload: seq<Byte>) returns (first: seq<Byte>)
    requires |payload| == 128
    ensures Lockstep([Fresh(256), Fresh(256)], [CallsOnce(payload), CallsOnce(payload)], 256, 10, 1)[0].history
            == [Got([first, []])]
    ensures |first| == 384 && Delivered([Fresh(256), Fresh(256)], [CallsOnce(payload), CallsOnce(payload)], 256, 10, 0, 0)
                              == Got([payload, payload])
  {
    var tiles, scripts := [Fresh(256), Fresh(256)], [CallsOnce(payload), CallsOnce(payload)];
    var n := Lockstep(tiles, scripts, 256, 10, 0);
    assert !n[0].finished && !n[1].finished && n[0].history == [] && n[1].history == [];
    assert Payload(tiles, scripts, 256, 10, 0, 0) == payload && Payload(tiles, scripts, 256, 10, 0, 1) == payload;
    assert AllSent(tiles, scripts, 256, 10, 0) == [payload, payload];
    first := TwoRead(tiles, scripts, n, payload);
    RoundAppends(tiles, scripts, 256, 10, 0, 0);
  }

  lemma TwoRead(tiles: seq<Tile>, scripts: seq<Script>, n: seq<Node>, payload: seq<Byte>) returns (first: seq<Byte>)
    requires Well(tiles, scripts, 256) && |tiles| == 2 && |payload| == 128 && n == Lockstep(tiles, scripts, 256, 10, 0)
    requires !n[0].finished && !n[1].finished
    requires Payload(tiles, scripts, 256, 10, 0, 0) == payload && Payload(tiles, scripts, 256, 10, 0, 1) == payload
    ensures |first| == 384 && OutcomeOf(n[0].sendFailed, Flat(NodeBufs(n)), 256) == Got([first, []])
  {
    assert Sent(payload, 256) == payload;
    hide Lockstep, Payload, Written, ReadAll, Flat, Read, OutcomeOf, Sent;
    var was0 := PayloadIsWritten(tiles, scripts, 256, 10, 0, 0);
    var was1 := PayloadIsWritten(tiles, scripts, 256, 10, 0, 1);
    SizeIsWritten(was0, payload);
    SizeIsWritten(was1, payload);
    var recv := Flat(NodeBufs(n));
    FlatLength(NodeBufs(n), 256);
    FlatAt(NodeBufs(n), 0, 256);
    FlatAt(NodeBufs(n), 1, 256);
    assert recv[255] == recv[0..256][255] && recv[511] == recv[256..512][255];
    ReadSlice(recv, 0, 2, 256, 128);
    ReadSlice(recv, 1, 2, 256, 128);
    AllRead(n[0].sendFailed, recv, 2, 256);
    ReadAllAt(recv, 2, 256, 0);
    ReadAllAt(recv, 2, 256, 1);
    first := Read(recv, 0, 256);
    assert ReadAll(recv, 2, 256) == [first, []];
  }

  class Device {
    var tiles: seq<Tile>
    var commsIn: seq<Byte>
    const scripts: seq<Script>
    const limit: nat            // COMMSBUFSIZE

    ghost predicate Valid()
      reads this
    {
      Well(tiles, scripts, limit)
    }

    constructor (n: nat, limit: nat, scripts: seq<Script>)
      requires n == |scripts| > 0 && limit > 4
      ensures Valid() && |tiles| == n && this.scripts == scripts && this.limit == limit
      ensures forall i | 0 <= i < n :: !tiles[i].done && !tiles[i].coroutine && !tiles[i].live
    {
      this.limit, this.scripts := limit, scripts;
      var zeros := seq(limit, _ => 0);
      tiles := seq(n, _ => Tile(false, false, false, false, false, zeros, [], 0));
      commsIn := [];
    }

    method ReceiveOne(i: nat, sendLimit: nat) returns (payload: seq<Byte>)
      requires sendLimit > 0 && i * sendLimit + sendLimit <= |commsIn|
      ensures payload == Read(commsIn, i, sendLimit)
    {
      var pos := i * sendLimit;
      var size := Signed(commsIn[pos + sendLimit - 1]);
      payload := Slice(commsIn, pos, pos + size);
    }

    /** The second half of alltoall: the list it returns. */
    method Receive() returns (ret: seq<seq<Byte>>)
      requires limit > 0
      ensures Got(ret) == OutcomeOf(false, commsIn, limit)
    {
      var sendLimit := limit;
      var numRepls := |commsIn| / sendLimit;
      ret := [];
      var i := 0;
      Arith.DivMod(|commsIn|, limit);
      hide Read;
      while i < numRepls
        invariant 0 <= i <= numRepls && i * limit <= |commsIn| && ret == ReadAll(commsIn, i, limit)
      {
        Fits(i, numRepls, limit, |commsIn|);
        var payload := ReceiveOne(i, sendLimit);
        ret := ret + [payload];
        i := i + 1;
      }
    }

    /** RuntimeVertex.compute on tile i. */
    method Compute(i: nat, first: bool, c: Byte)
      requires Valid() && i < |tiles|
      modifies `tiles
      ensures Valid() && tiles == old(tiles)[i := Computed(old(tiles)[i], scripts[i], first, commsIn, c)]
    {
      var t := tiles[i];
      if !first && t.live {
        t := t.(live := false);
        var outcome := ValueError;
        if !t.sendFailed {
          var payloads := Receive();
          outcome := Got(payloads);
        }
        t := Act(t.(history := t.history + [outcome]), scripts[i]);
        tiles := tiles[i := t];
        return;
      }
      t := t.(live := false, inFirst := first);
      if !(t.done || (!first && !t.coroutine)) {
        t := t.(starts := t.starts + 1);
        if c == 0 {
          t := t.(done := true, coroutine := false);
        } else {
          t := Act(t.(history := []), scripts[i]);
        }
      }
      tiles := tiles[i := t];
    }

    /** One compute set: every tile's vertex. */
    method Execute(first: bool, c: Byte)
      requires Valid()
      modifies `tiles
      ensures Valid() && tiles == AllComputed(old(tiles), scripts, first, commsIn, c)
    {
      ghost var was := tiles;
      var i := 0;
      hide Computed;
      while i < |tiles|
        invariant Valid() && |tiles| == |was| && i <= |was|
        invariant forall j | 0 <= j < i :: tiles[j] == Computed(was[j], scripts[j], first, commsIn, c)
        invariant forall j | i <= j < |was| :: tiles[j] == was[j]
      {
        Compute(i, first, c);
        i := i + 1;
      }
    }

    /** Any.compute */
    method Any()
      requires Valid()
      modifies `tiles
      ensures Valid() && tiles == Flagged(old(tiles))
    {
      var i := 0;
      while i < |tiles|
        invariant i <= |tiles| && tiles == old(tiles) && forall j | 0 <= j < i :: !tiles[j].coroutine
      {
        if tiles[i].coroutine {
          tiles := tiles[0 := tiles[0].(coroutine := true)];
          return;
        }
        i := i + 1;
      }
      tiles := tiles[0 := tiles[0].(coroutine := false)];
    }

    /** The device program for one character. When the first tile calls alltoall k times and no
        tile calls more often, it makes exactly k exchanges, and everyone ends with what is meant. */
    method ProcessCharacter(c: Byte, ghost k: nat) returns (exchanges: nat)
      requires Valid() && !tiles[0].done && forall i | 0 <= i < |tiles| :: !tiles[i].coroutine
      requires LastRound(tiles, scripts, limit, c, k)
      modifies `tiles, `commsIn
      ensures Valid() && exchanges == k
      ensures AllAgree(tiles, Lockstep(old(tiles), scripts, limit, c, k), old(tiles), c)
      ensures forall i | 0 <= i < |tiles| :: !tiles[i].coroutine
    {
      hide AllComputed, Flagged, Lockstep, Flat, Bufs, AllAgree, Well, After, LastRound;
      ghost var was, recv := tiles, commsIn;
      exchanges := 0;
      Execute(true, c);
      FirstRound(was, scripts, limit, recv, c);
      while true
        invariant Valid() && exchanges <= k && tiles == After(was, scripts, limit, recv, c, exchanges)
        decreases k - exchanges
      {
        FlagMeansMore(was, scripts, limit, recv, c, k, exchanges);
        SomeTile(tiles, scripts, limit);
        Any();
        if !tiles[0].coroutine {
          break;
        }
        commsIn := Flat(Bufs(tiles));
        Execute(false, c);
        NextRound(was, scripts, limit, recv, c, exchanges);
        exchanges := exchanges + 1;
      }
    }
  }

  lemma SomeTile(tiles: seq<Tile>, scripts: seq<Script>, limit: nat)
    requires Well(tiles, scripts, limit)
    ensures tiles != []
  {
  }

  lemma FirstRound(tiles: seq<Tile>, scripts: seq<Script>, limit: nat, recv: seq<Byte>, c: Byte)
    requires Well(tiles, scripts, limit)
    ensures After(tiles, scripts, limit, recv, c, 0) == AllComputed(tiles, scripts, true, recv, c)
  {
  }

  lemma NextRound(tiles: seq<Tile>, scripts: seq<Script>, limit: nat, recv: seq<Byte>, c: Byte, r: nat)
    requires Well(tiles, scripts, limit)
    ensures var s := Flagged(After(tiles, scripts, limit, recv, c, r));
            After(tiles, scripts, limit, recv, c, r + 1) == AllComputed(s, scripts, false, Flat(Bufs(s)), c)
  {
    hide AllComputed, Flat, Bufs;
  }

  /** While the first tile is the last to finish, its flag is set exactly in the first k rounds. */
  lemma FlagMeansMore(tiles: seq<Tile>, scripts: seq<Script>, limit: nat, recv: seq<Byte>, c: Byte, k: nat, r: nat)
    requires Well(tiles, scripts, limit) && LastRound(tiles, scripts, limit, c, k) && r <= k
    requires forall i | 0 <= i < |tiles| :: !tiles[i].coroutine
    ensures var t := After(tiles, scripts, limit, recv, c, r);
            && AllAgree(t, Lockstep(tiles, scripts, limit, c, r), tiles, c)
            && Flagged(t) == t && (t[0].coroutine <==> r < k)
            && (r == k ==> forall i | 0 <= i < |t| :: !t[i].coroutine)
  {
    hide Lockstep, After, Agrees;
    var t, n := After(tiles, scripts, limit, recv, c, r), Lockstep(tiles, scripts, limit, c, r);
    InStep(tiles, scripts, limit, recv, c, r);
    SameBufs(t, n, tiles, c);
    assert t[0].coroutine == !n[0].finished by {
      FlagOf(t, n, tiles, c, 0);
    }
    if r == k {
      forall i | 0 <= i < |t| ensures !t[i].coroutine {
        FlagOf(t, n, tiles, c, i);
      }
    }
  }

  lemma FlagOf(t: seq<Tile>, n: seq<Node>, tiles: seq<Tile>, c: Byte, i: nat)
    requires AllAgree(t, n, tiles, c) && i < |t|
    ensures t[i].coroutine == !n[i].finished
  {
    assert Agrees(t[i], n[i], tiles[i], c);
  }
}
