/** The resumable WebSocket frame reader: whatever the arrival of the bytes and the sizes of the
    reads, it delivers the payloads of the data frames, unmasked, in order and complete. */
module WebSocket {
  import opened Basics
  import opened Bytes

  // ---------- Frames (RFC 6455, section 5.2) ----------

  type Mask = m: seq<Byte> | |m| == 4 witness [0, 0, 0, 0]

  /** An unfragmented frame; `wide` is the choice of the 16-bit length form. */
  datatype Frame = Frame(opcode: nat, key: Option<Mask>, wide: bool, payload: seq<Byte>)

  const OPCODE_CLOSE := 8

  /** The frames of this model: data frames of less than 65536 bytes, and control frames other
      than CLOSE without a payload. */
  predicate FrameOk(f: Frame) {
    && f.opcode < 16 && f.opcode != OPCODE_CLOSE
    && |f.payload| < 0x1_0000 && (!f.wide ==> |f.payload| < 126)
    && (IsControl(f) ==> f.payload == [])
  }

  predicate IsControl(f: Frame) { f.opcode >= OPCODE_CLOSE }

  function Length7(f: Frame): nat
    requires FrameOk(f)
  {
    if f.wide then 126 else |f.payload|
  }

  /** The two bytes every frame starts with: FIN and opcode, MASK and length. */
  function Head(f: Frame): (h: seq<Byte>)
    requires FrameOk(f)
    ensures |h| == 2
  {
    [0x80 + f.opcode, (if f.key.Some? then 0x80 else 0) + Length7(f)]
  }

  /** The optional rest of the header. */
  function Opt(f: Frame): (o: seq<Byte>)
    requires FrameOk(f)
    ensures |o| <= 6
  {
    (if f.wide then [|f.payload| / 256, |f.payload| % 256] else []) + if f.key.Some? then f.key.value else []
  }

  /** Byte i of the payload goes out masked by byte i mod 4 of the key (section 5.3). */
  function Masked(data: seq<Byte>, key: Mask): (m: seq<Byte>)
    ensures |m| == |data|
  {
    seq(|data|, i requires 0 <= i < |data| => Xor(data[i], key[i % 4]))
  }

  function Body(f: Frame): (b: seq<Byte>)
    ensures |b| == |f.payload|
  {
    if f.key.Some? then Masked(f.payload, f.key.value) else f.payload
  }

  function Wire(f: Frame): seq<Byte>
    requires FrameOk(f)
  {
    Head(f) + Opt(f) + Body(f)
  }

  /** Frames on the wire as section 5.7 of RFC 6455 shows them: a text, a PING, 256 bytes of data, and
      the length and the key of a masked frame. */
  lemma OnTheWire(text: seq<Byte>, data: seq<Byte>)
    requires |text| == 5 && |data| == 256
    ensures Wire(Frame(1, None, false, text)) == [0x81, 0x05] + text
    ensures Wire(Frame(9, None, false, [])) == [0x89, 0x00]
    ensures Wire(Frame(2, None, true, data)) == [0x82, 0x7e, 0x01, 0x00] + data
    ensures Wire(Frame(1, Some([0x37, 0xfa, 0x21, 0x3d]), false, text))
            == [0x81, 0x85, 0x37, 0xfa, 0x21, 0x3d]
               + [Xor(text[0], 0x37), Xor(text[1], 0xfa), Xor(text[2], 0x21), Xor(text[3], 0x3d), Xor(text[4], 0x37)]
  {
    hide Xor;
    var key: Mask := [0x37, 0xfa, 0x21, 0x3d];
    assert Masked(text, key) == [Xor(text[0], 0x37), Xor(text[1], 0xfa), Xor(text[2], 0x21), Xor(text[3], 0x3d), Xor(text[4], 0x37)];
    assert Wire(Frame(1, None, false, text)) == [0x81, 0x05] + [] + text;
    assert Wire(Frame(9, None, false, [])) == [0x89, 0x00] + [] + [];
    assert Wire(Frame(2, None, true, data)) == [0x82, 0x7e] + [0x01, 0x00] + data;
    assert Wire(Frame(1, Some(key), false, text)) == [0x81, 0x85] + key + Masked(text, key);
  }

  predicate FramesOk(fs: seq<Frame>) {
    forall i | 0 <= i < |fs| :: FrameOk(fs[i])
  }

  function Wires(fs: seq<Frame>): seq<Byte>
    requires FramesOk(fs)
  {
    if fs == [] then [] else Wire(fs[0]) + Wires(fs[1..])
  }

  /** What the frames say to the reader. */
  function Said(f: Frame): seq<Byte> {
    if IsControl(f) then [] else f.payload
  }

  function Payloads(fs: seq<Frame>): seq<Byte> {
    if fs == [] then [] else Said(fs[0]) + Payloads(fs[1..])
  }

  // ---------- The socket ----------

  datatype Got = Count(n: nat) | Eof | Again

  /** One read of the socket: how many bytes were asked for, and what came. */
  datatype Attempt = Attempt(asked: nat, got: Got) {
    /** Some bytes came, but not all. */
    predicate Short() { got.Count? && got.n < asked }

    predicate Full() { got == Count(asked) }
  }

  ghost predicate OneMore(was: seq<Attempt>, log: seq<Attempt>) {
    |log| == |was| + 1 && log[..|was|] == was
  }

  /** What a read of up to n bytes gets when `left` are still to come. */
  function Answer(grants: seq<nat>, left: nat, n: nat): Got {
    if grants == [] then Again
    else if left == 0 then Eof
    else if grants[0] == 0 then Again
    else
      var k := if grants[0] < n then grants[0] else n;
      Count(if k < left then k else left)
  }

  /** A stream socket. How many bytes have arrived by each read is up to the network: `grants`
      lists it, a zero or the end of the list meaning that nothing is there yet. */
  class Sock {
    const stream: seq<Byte>
    var pos: nat
    var grants: seq<nat>
    ghost var log: seq<Attempt>

    ghost predicate Valid()
      reads this
    {
      pos <= |stream|
    }

    ghost function Unread(): seq<Byte>
      requires Valid()
      reads this
    {
      stream[pos..]
    }

    constructor (stream: seq<Byte>, grants: seq<nat>)
      ensures Valid() && this.stream == stream && pos == 0 && this.grants == grants
    {
      this.stream, pos, this.grants, log := stream, 0, grants, [];
    }

    /** Read up to n bytes to dst[off..]. */
    method Read(dst: array<Byte>, off: nat, n: nat) returns (r: Got)
      requires Valid() && off + n <= dst.Length && n > 0
      modifies this, dst
      ensures Valid()
      ensures r.Again? ==> dst[..] == old(dst[..]) && pos == old(pos)
      ensures r.Eof? ==> dst[..] == old(dst[..]) && pos == old(pos) == |stream|
      ensures r.Count? ==> 0 < r.n <= n && pos == old(pos) + r.n && pos <= |stream|
      ensures r.Count? ==> dst[..] == old(dst[..])[..off] + old(Unread())[..r.n] + old(dst[..])[off + r.n..]
      ensures grants == if old(grants) == [] then [] else old(grants)[1..]
      ensures r == Answer(old(grants), |stream| - old(pos), n) && log == old(log) + [Attempt(n, r)]
    {
      log := log + [Attempt(n, Answer(grants, |stream| - pos, n))];
      if grants == [] {
        return Again;
      }
      var g := grants[0];
      grants := grants[1..];
      if pos == |stream| {
        return Eof;
      }
      if g == 0 {
        return Again;
      }
      var k := if g < n then g else n;
      k := if k < |stream| - pos then k else |stream| - pos;
      forall i | 0 <= i < k {
        dst[off + i] := stream[pos + i];
      }
      pos := pos + k;
      return Count(k);
    }
  }

  // ---------- The reader ----------

  datatype State = FRAME_HEADER | FRAME_OPT | PAYLOAD | CONTROL

  const NO_MASK: seq<Byte> := [0, 0, 0, 0]

  /** The mask a frame is read with: all zeros when it has none. */
  function KeyOf(f: Frame): (k: seq<Byte>)
    ensures |k| == 4
  {
    if f.key.Some? then f.key.value else NO_MASK
  }

  lemma Unmasks(f: Frame, i: nat)
    requires i < |f.payload|
    ensures Xor(Body(f)[i], KeyOf(f)[i % 4]) == f.payload[i]
  {
    if f.key.Some? {
      XorTwice(f.payload[i], f.key.value[i % 4]);
    } else {
      assert KeyOf(f)[i % 4] == 0;
      XorZero(f.payload[i]);
    }
  }

  lemma WiresFront(fs: seq<Frame>)
    requires FramesOk(fs) && Wires(fs) != []
    ensures fs != [] && Wires(fs) == Head(fs[0]) + (Opt(fs[0]) + Body(fs[0]) + Wires(fs[1..]))
  {
    var f, tail := fs[0], Wires(fs[1..]);
    hide Opt, Head, Body;
    Assoc(Head(f), Opt(f), Body(f));
    Assoc(Head(f), Opt(f) + Body(f), tail);
  }

  /** The first frame on the wire, in its parts. */
  lemma WireParts(fs: seq<Frame>, got: seq<Byte>, rest: seq<Byte>)
    requires FramesOk(fs) && got + rest == Wires(fs) && |got| == 2
    ensures fs != [] && got == Head(fs[0]) && rest == Opt(fs[0]) + Body(fs[0]) + Wires(fs[1..])
  {
    hide Opt, Head, Body, Wires;
    assert |got + rest| >= 2;
    WiresFront(fs);
    SplitAt(got, rest, Head(fs[0]), Opt(fs[0]) + Body(fs[0]) + Wires(fs[1..]));
  }

  lemma SplitAt(a: seq<Byte>, b: seq<Byte>, c: seq<Byte>, d: seq<Byte>)
    requires a + b == c + d && |a| == |c|
    ensures a == c && b == d
  {
    assert a == (a + b)[..|a|] == (c + d)[..|a|] == c;
    assert b == (a + b)[|a|..] == (c + d)[|a|..];
  }

  /** The reader between two steps: its fields, the header bytes it holds, and what the socket
      has still to give; and the frames not yet read to their end. */
  datatype Snap = Snap(
    state: State,
    toRecv: nat,
    maskPos: nat,
    msgSz: nat,
    mask: seq<Byte>,
    opcode: nat,
    got: seq<Byte>,
    unread: seq<Byte>,
    todo: seq<Frame>,
    delivered: seq<Byte>)

  /** Some of the two bytes every header starts with have been read. */
  ghost predicate InHeader(s: Snap, all: seq<Byte>)
    requires FramesOk(s.todo)
  {
    && |s.got| + s.toRecv == 2 && s.maskPos == 0
    && s.got + s.unread == Wires(s.todo)
    && s.delivered + Payloads(s.todo) == all
  }

  /** Some of the optional header bytes have been read. */
  ghost predicate InOpt(s: Snap, all: seq<Byte>)
    requires FramesOk(s.todo)
  {
    && s.todo != [] && s.opcode == s.todo[0].opcode
    && |s.got| + s.toRecv == |Opt(s.todo[0])| > 0 && s.maskPos == 0 && s.mask == NO_MASK
    && s.msgSz == Length7(s.todo[0])
    && s.got + s.unread == Opt(s.todo[0]) + Body(s.todo[0]) + Wires(s.todo[1..])
    && s.delivered + Payloads(s.todo) == all
  }

  /** msgSz bytes of the payload are still to come. */
  ghost predicate InBody(s: Snap, all: seq<Byte>)
    requires FramesOk(s.todo)
  {
    && s.todo != [] && s.toRecv == 0 && s.got == [] && s.mask == KeyOf(s.todo[0])
    && (s.state.CONTROL? <==> IsControl(s.todo[0]))
    && s.msgSz <= |s.todo[0].payload| && s.maskPos % 4 == (|s.todo[0].payload| - s.msgSz) % 4
    && s.unread == Pending(s.todo, s.msgSz)
    && s.delivered + Rest(s.todo, s.msgSz) == all
  }

  /** What is still to come on the wire of the frame under way and those after it. */
  ghost function Pending(todo: seq<Frame>, msgSz: nat): seq<Byte>
    requires FramesOk(todo) && todo != [] && msgSz <= |todo[0].payload|
  {
    RestOk(todo);
    Body(todo[0])[|todo[0].payload| - msgSz..] + Wires(todo[1..])
  }

  /** What the frame under way and those after it have still to say. */
  ghost function Rest(todo: seq<Frame>, msgSz: nat): seq<Byte>
    requires todo != [] && msgSz <= |todo[0].payload|
  {
    (if IsControl(todo[0]) then [] else todo[0].payload[|todo[0].payload| - msgSz..]) + Payloads(todo[1..])
  }

  /** Nothing is lost, repeated or misread so far. */
  ghost predicate OnTrack(s: Snap, all: seq<Byte>) {
    && |s.mask| == 4 && FramesOk(s.todo)
    && match s.state
       case FRAME_HEADER => InHeader(s, all)
       case FRAME_OPT => InOpt(s, all)
       case PAYLOAD | CONTROL => InBody(s, all)
  }

  lemma RestOk(fs: seq<Frame>)
    requires fs != [] && FramesOk(fs)
    ensures FramesOk(fs[1..])
  {
  }

  lemma HeaderFits(s: Snap, all: seq<Byte>)
    requires OnTrack(s, all)
    ensures |s.got| + s.toRecv <= 6
    ensures s.toRecv > 0 ==> !(s.state.PAYLOAD? || s.state.CONTROL?)
  {
    hide Wires, Opt, Body, Payloads;
  }

  /** What is missing of a header is still to come, unless everything has. */
  lemma HeaderComes(s: Snap, all: seq<Byte>)
    requires OnTrack(s, all) && s.toRecv > 0
    ensures s.unread == [] || |s.unread| >= s.toRecv
    ensures s.state.FRAME_OPT? ==> s.todo != []
  {
    hide Payloads, Body, Head, Opt;
    if s.state.FRAME_HEADER? && s.todo != [] {
      assert |Wires(s.todo)| >= 2;
    }
  }

  lemma BodyComes(s: Snap, all: seq<Byte>)
    requires OnTrack(s, all) && (s.state.PAYLOAD? || s.state.CONTROL?)
    ensures s.todo != [] && (s.msgSz > 0 ==> s.unread != [])
  {
    hide Payloads, Wires, KeyOf;
  }

  /** Since then, all reads of the socket have given what was asked for. */
  ghost predicate AllFull(was: seq<Attempt>, log: seq<Attempt>) {
    |was| <= |log| && forall i | |was| <= i < |log| :: log[i].Full()
  }

  /** The n bytes came from a read for all of the payload that was left and fits; msgSz are left now. */
  ghost predicate AsksForAll(size: nat, n: nat, msgSz: nat, a: Attempt) {
    a.asked == if size < n + msgSz then size else n + msgSz
  }

  /** All but the last have, and the last one explains what a call returns. */
  ghost predicate GaveUp(was: seq<Attempt>, log: seq<Attempt>, r: Got) {
    && |was| < |log| && Explains(r, log[|log| - 1])
    && forall i | |was| <= i < |log| - 1 :: log[i].Full()
  }

  lemma NothingRead(log: seq<Attempt>)
    ensures AllFull(log, log)
  {
  }

  lemma ReadOnce(was: seq<Attempt>, before: seq<Attempt>, log: seq<Attempt>, r: Got)
    requires AllFull(was, before) && OneMore(before, log) && Explains(r, log[|log| - 1])
    ensures GaveUp(was, log, r)
    ensures log[|log| - 1].Full() ==> AllFull(was, log)
  {
    assert forall i | 0 <= i < |before| :: log[i] == log[..|before|][i];
  }

  /** The last read of the socket explains what a call returns. */
  ghost predicate Explains(r: Got, a: Attempt) {
    match r
    case Count(n) => a.got == Count(n)
    case Eof => a.got.Eof?
    case Again => a.got.Again? || a.Short()
  }

  /** More header bytes arrive. */
  lemma FillKeeps(s: Snap, n: nat, all: seq<Byte>)
    requires OnTrack(s, all) && 0 < n <= s.toRecv && n <= |s.unread|
    ensures OnTrack(s.(got := s.got + s.unread[..n], unread := s.unread[n..], toRecv := s.toRecv - n), all)
  {
    hide Wires, Opt, Body, Payloads;
    assert s.unread == s.unread[..n] + s.unread[n..];
    Assoc(s.got, s.unread[..n], s.unread[n..]);
  }

  /** How many optional header bytes the second byte announces. */
  function Need(b: Byte): nat {
    (if b % 128 == 126 then 2 else 0) + if b >= 128 then 4 else 0
  }

  function AfterHeader(s: Snap): Snap
    requires |s.got| == 2
  {
    var need := Need(s.got[1]);
    s.(state := if need != 0 then FRAME_OPT else if s.got[0] % 16 >= 8 then CONTROL else PAYLOAD,
       toRecv := need, msgSz := s.got[1] % 128, mask := NO_MASK, opcode := s.got[0] % 16, got := [])
  }

  lemma HeaderSeen(s: Snap, b0: Byte, b1: Byte)
    requires s.got == [b0, b1]
    ensures AfterHeader(s)
            == s.(state := if Need(b1) != 0 then FRAME_OPT else if b0 % 16 >= 8 then CONTROL else PAYLOAD,
                  toRecv := Need(b1), msgSz := b1 % 128, mask := NO_MASK, opcode := b0 % 16, got := [])
  {
    hide Need;
  }

  lemma HeaderKeeps(s: Snap, all: seq<Byte>)
    requires OnTrack(s, all) && s.state.FRAME_HEADER? && s.toRecv == 0
    ensures |s.got| == 2 && OnTrack(AfterHeader(s), all)
  {
    hide Wires, Body, Payloads, Opt, Head;
    WireParts(s.todo, s.got, s.unread);
    var f, rest := s.todo[0], Wires(s.todo[1..]);
    assert s.got == [s.got[0], s.got[1]];
    HeadBits(f, s.got[0], s.got[1]);
    FrameBegins(s.todo);
    assert [] + s.unread == s.unread;
    if Need(s.got[1]) == 0 {
      assert Opt(f) + Body(f) + rest == Body(f)[0..] + rest;
    }
  }

  function AfterOpt(s: Snap): Snap {
    s.(state := if s.opcode >= 8 then CONTROL else PAYLOAD,
       msgSz := if |s.got| % 4 == 2 then s.got[0] as int * 256 + s.got[1] as int else s.msgSz,
       mask := if |s.got| >= 4 then s.got[|s.got| - 4..] else s.mask,
       got := [])
  }

  lemma OptSeen(s: Snap, msgSz: nat, mask: seq<Byte>)
    requires msgSz == if |s.got| % 4 == 2 then s.got[0] as int * 256 + s.got[1] as int else s.msgSz
    requires mask == if |s.got| >= 4 then s.got[|s.got| - 4..] else s.mask
    ensures AfterOpt(s) == s.(state := if s.opcode >= 8 then CONTROL else PAYLOAD, msgSz := msgSz, mask := mask, got := [])
  {
  }

  lemma OptKeeps(s: Snap, all: seq<Byte>)
    requires OnTrack(s, all) && s.state.FRAME_OPT? && s.toRecv == 0
    ensures OnTrack(AfterOpt(s), all)
  {
    hide Wires, Body, Payloads, Opt;
    var f, rest := s.todo[0], Wires(s.todo[1..]);
    Assoc(Opt(f), Body(f), rest);
    SplitAt(s.got, s.unread, Opt(f), Body(f) + rest);
    OptBytes(f, s.got);
    FrameBegins(s.todo);
  }

  lemma DoneKeeps(s: Snap, all: seq<Byte>)
    requires OnTrack(s, all) && (s.state.PAYLOAD? || s.state.CONTROL?) && s.msgSz == 0
    ensures s.todo != []
    ensures OnTrack(s.(state := FRAME_HEADER, toRecv := 2, maskPos := 0, got := [], todo := s.todo[1..]), all)
  {
    hide Wires, Body, Payloads, KeyOf;
    var f, rest := s.todo[0], Wires(s.todo[1..]);
    RestOk(s.todo);
    hide FramesOk;
    assert Body(f)[|f.payload|..] == [] && f.payload[|f.payload|..] == [];
    assert [] + rest == rest && [] + s.unread == s.unread;
    assert [] + Payloads(s.todo[1..]) == Payloads(s.todo[1..]);
  }

  /** The next n bytes of a payload, as they stand on the stream. */
  lemma NextBytes(s: Snap, n: nat, all: seq<Byte>)
    requires OnTrack(s, all) && (s.state.PAYLOAD? || s.state.CONTROL?) && 0 < n <= s.msgSz && n <= |s.unread|
    ensures s.todo != [] && s.msgSz <= |s.todo[0].payload|
    ensures s.mask == KeyOf(s.todo[0]) && s.maskPos % 4 == (|s.todo[0].payload| - s.msgSz) % 4
    ensures var done := |s.todo[0].payload| - s.msgSz; s.unread[..n] == Body(s.todo[0])[done..done + n]
  {
    hide Wires, Body, Payloads, KeyOf, Rest, FramesOk, InHeader, InOpt, Pending;
    PendingTaken(s.todo, s.msgSz, n);
  }

  lemma PendingTaken(todo: seq<Frame>, msgSz: nat, n: nat)
    requires FramesOk(todo) && todo != [] && n <= msgSz <= |todo[0].payload| && n <= |Pending(todo, msgSz)|
    ensures var done := |todo[0].payload| - msgSz;
            && Pending(todo, msgSz)[..n] == Body(todo[0])[done..done + n]
            && Pending(todo, msgSz)[n..] == Pending(todo, msgSz - n)
  {
    hide Wires, Body, FramesOk;
    RestOk(todo);
    Advance(todo[0], |todo[0].payload| - msgSz, n, Pending(todo, msgSz), Wires(todo[1..]));
  }

  /** Only data frames have a payload, and what is taken of it is said. */
  lemma RestTaken(delivered: seq<Byte>, todo: seq<Frame>, msgSz: nat, n: nat)
    requires FramesOk(todo) && todo != [] && 0 < n <= msgSz <= |todo[0].payload|
    ensures var p, done := todo[0].payload, |todo[0].payload| - msgSz;
            delivered + Rest(todo, msgSz) == delivered + p[done..done + n] + Rest(todo, msgSz - n)
  {
    hide Payloads;
    var p, done := todo[0].payload, |todo[0].payload| - msgSz;
    assert FrameOk(todo[0]) && !IsControl(todo[0]);
    RestOk(todo);
    Delivers(delivered, p, done, n, Payloads(todo[1..]));
  }

  function AfterTake(s: Snap, n: nat, maskPos: nat, taken: seq<Byte>): Snap
    requires n <= |s.unread| && n <= s.msgSz
  {
    s.(unread := s.unread[n..], msgSz := s.msgSz - n, maskPos := maskPos, delivered := s.delivered + taken)
  }

  /** They are taken off the stream and delivered. */
  lemma TakeKeeps(s: Snap, n: nat, maskPos: nat, taken: seq<Byte>, all: seq<Byte>)
    requires OnTrack(s, all) && (s.state.PAYLOAD? || s.state.CONTROL?) && 0 < n <= s.msgSz && n <= |s.unread|
    requires s.todo != [] && s.msgSz <= |s.todo[0].payload|
    requires var done := |s.todo[0].payload| - s.msgSz;
             taken == s.todo[0].payload[done..done + n] && maskPos % 4 == (done + n) % 4
    ensures OnTrack(AfterTake(s, n, maskPos, taken), all)
  {
    hide InBody, InHeader, InOpt, FramesOk;
    BodyTaken(s, n, maskPos, taken, all);
  }

  lemma BodyTaken(s: Snap, n: nat, maskPos: nat, taken: seq<Byte>, all: seq<Byte>)
    requires FramesOk(s.todo) && InBody(s, all) && 0 < n <= s.msgSz && n <= |s.unread|
    requires var done := |s.todo[0].payload| - s.msgSz;
             taken == s.todo[0].payload[done..done + n] && maskPos % 4 == (done + n) % 4
    ensures InBody(AfterTake(s, n, maskPos, taken), all)
  {
    hide Wires, Body, Payloads, KeyOf, FramesOk, Rest, Pending, IsControl;
    PendingTaken(s.todo, s.msgSz, n);
    RestTaken(s.delivered, s.todo, s.msgSz, n);
    assert |s.todo[0].payload| - (s.msgSz - n) == |s.todo[0].payload| - s.msgSz + n;
  }

  /** What was delivered is a prefix of what is said; and all of it, when nothing is left to read
      and no frame is under way. */
  lemma PrefixSoFar(s: Snap, all: seq<Byte>)
    requires OnTrack(s, all)
    ensures s.delivered <= all
    ensures s.unread == [] && (s.state.PAYLOAD? || s.state.CONTROL? || s.toRecv > 0) ==> s.delivered == all
  {
    hide Wires, Body, Opt, Head;
    WiresLong(s.todo);
  }

  // ---------- The opcode of the last frame ----------

  /** What a header byte makes of ws_flags: a continuation keeps the opcode. */
  function NextFlags(flags: Byte, head: Byte): Byte {
    if head % 16 == 0 then flags % 16 + head / 16 * 16 else head
  }

  /** A header leaves the opcode that a caller can ask for alone exactly when it is that of a
      continuation or the one already held. */
  lemma OpcodeKept(flags: Byte, head: Byte)
    ensures NextFlags(flags, head) % 16 == flags % 16 <==> head % 16 == 0 || head % 16 == flags % 16
  {
  }

  /** So a control frame alters it unless one of its own kind came last: after a text frame, the
      header of a PING makes the stream say that the data is a PING. */
  lemma ControlFrameAltersFlags(flags: Byte, head: Byte)
    requires head % 16 >= OPCODE_CLOSE
    ensures NextFlags(flags, head) == flags <==> flags == head
    ensures NextFlags(0x81, 0x89) % 16 == 9 != 0x81 % 16
  {
  }

  /** The opcode of the last frame that is not a continuation, or the one held before. */
  function LastOpcode(first: nat, fs: seq<Frame>): nat {
    if fs == [] then first
    else
      var l := |fs| - 1;
      if fs[l].opcode == 0 then LastOpcode(first, fs[..l]) else fs[l].opcode
  }

  /** What a caller asks for: the opcode of the last data frame that is not a continuation. */
  function LastDataOpcode(first: nat, fs: seq<Frame>): nat {
    if fs == [] then first
    else
      var l := |fs| - 1;
      if fs[l].opcode == 0 || IsControl(fs[l]) then LastDataOpcode(first, fs[..l]) else fs[l].opcode
  }

  /** The last frame that is not a continuation is a control frame. */
  predicate EndsInControl(fs: seq<Frame>) {
    fs != [] &&
    var l := |fs| - 1;
    if fs[l].opcode == 0 then EndsInControl(fs[..l]) else IsControl(fs[l])
  }

  predicate NoData(fs: seq<Frame>) {
    forall i | 0 <= i < |fs| :: fs[i].opcode == 0 || IsControl(fs[i])
  }

  /** The two are the same exactly when no control frame has come since that data frame; or when
      there was none, and the last control frame's opcode happened to be held before. */
  lemma {:induction false} DataOpcodeKept(first: nat, fs: seq<Frame>)
    ensures LastOpcode(first, fs) == LastDataOpcode(first, fs)
            <==> !EndsInControl(fs) || (NoData(fs) && LastOpcode(first, fs) == first)
    decreases |fs|
  {
    if fs != [] {
      var l := |fs| - 1;
      DataOpcodeKept(first, fs[..l]);
      WithoutData(first, fs[..l]);
      assert NoData(fs) <==> NoData(fs[..l]) && (fs[l].opcode == 0 || IsControl(fs[l]));
    }
  }

  lemma {:induction false} WithoutData(first: nat, fs: seq<Frame>)
    ensures NoData(fs) ==> LastDataOpcode(first, fs) == first
    ensures !NoData(fs) ==> LastDataOpcode(first, fs) < OPCODE_CLOSE
    decreases |fs|
  {
    if fs != [] {
      var l := |fs| - 1;
      WithoutData(first, fs[..l]);
      assert NoData(fs) <==> NoData(fs[..l]) && (fs[l].opcode == 0 || IsControl(fs[l]));
    }
  }

  /** The frames are those seen and those to come, the one under way being among the seen. */
  ghost predicate Records(frames: seq<Frame>, todo: seq<Frame>, seen: seq<Frame>, inHeader: bool, first: nat, opcode: nat) {
    && (!inHeader ==> todo != [] && seen != [] && seen[|seen| - 1] == todo[0])
    && frames == seen + (if inHeader then todo else todo[1..])
    && opcode == LastOpcode(first, seen)
  }

  lemma HeaderOpcode(s: Snap, all: seq<Byte>)
    requires OnTrack(s, all) && s.state.FRAME_HEADER? && s.toRecv == 0
    ensures |s.got| == 2 && s.todo != [] && s.got[0] % 16 == s.todo[0].opcode
  {
    hide Wires, Body, Payloads, Opt, Head;
    WireParts(s.todo, s.got, s.unread);
    assert s.got == [s.got[0], s.got[1]];
    HeadBits(s.todo[0], s.got[0], s.got[1]);
  }

  lemma SeenOneMore(frames: seq<Frame>, todo: seq<Frame>, seen: seq<Frame>, first: nat, flags: Byte, head: Byte)
    requires Records(frames, todo, seen, true, first, flags % 16) && todo != [] && head % 16 == todo[0].opcode
    ensures Records(frames, todo, seen + [todo[0]], false, first, NextFlags(flags, head) % 16)
  {
    OneMoreOpcode(first, seen, todo[0]);
    hide LastOpcode;
    Assoc(seen, [todo[0]], todo[1..]);
    assert [todo[0]] + todo[1..] == todo;
  }

  lemma OneMoreOpcode(first: nat, seen: seq<Frame>, f: Frame)
    ensures LastOpcode(first, seen + [f]) == if f.opcode == 0 then LastOpcode(first, seen) else f.opcode
  {
    assert (seen + [f])[..|seen|] == seen;
  }

  class Reader {
    const sock: Sock
    const buf: array<Byte>
    var msgSz: nat
    var mask: seq<Byte>
    var state: State
    var toRecv: nat
    var maskPos: nat
    var bufPos: nat
    var lastFlags: Byte
    var wsFlags: Byte                  // make_new does not set it
    ghost var todo: seq<Frame>         // the frames not yet read to their end
    ghost var seen: seq<Frame>         // the frames whose header has been read
    ghost var delivered: seq<Byte>     // what all reads so far have returned
    ghost const frames: seq<Frame>     // what the socket carries
    ghost const all: seq<Byte>         // what the frames say
    ghost const first: nat             // the opcode held before the first header

    ghost function Now(): Snap
      requires sock.Valid() && bufPos <= buf.Length
      reads this, sock, buf
    {
      Snap(state, toRecv, maskPos, msgSz, mask, lastFlags % 16, buf[..bufPos], sock.Unread(), todo, delivered)
    }

    ghost predicate Consistent()
      reads this, sock, buf
    {
      sock.Valid() && buf.Length == 6 && bufPos <= 6 && OnTrack(Now(), all)
    }

    /** The opcode held is that of the frames seen so far. */
    ghost predicate Recorded()
      reads this
    {
      Records(frames, todo, seen, state.FRAME_HEADER?, first, wsFlags % 16)
    }

    ghost predicate InPayload()
      reads this
    {
      state.PAYLOAD? || state.CONTROL?
    }

    /** Between calls the reader either waits for header bytes or is inside a payload. */
    ghost predicate Valid()
      reads this, sock, buf
    {
      Consistent() && Recorded() && (!InPayload() ==> toRecv > 0)
    }

    /** make_new, on a socket that will carry the given frames. */
    constructor (sock: Sock, ghost frames: seq<Frame>)
      requires sock.Valid() && FramesOk(frames) && sock.Unread() == Wires(frames)
      ensures Valid() && this.sock == sock && delivered == [] && all == Payloads(frames) && fresh(buf)
      ensures this.frames == frames && seen == []
    {
      this.sock := sock;
      buf := new Byte[6];
      msgSz, mask, state, toRecv, maskPos, bufPos, lastFlags := 0, NO_MASK, FRAME_HEADER, 2, 0, 0, 0;
      todo, delivered, all := frames, [], Payloads(frames);
      this.frames, seen := frames, [];
      var unset: Byte := *;
      wsFlags, first := unset, unset % 16;
      new;
      assert buf[..0] + sock.Unread() == Wires(frames);
    }

    /** The top of the loop: get the header bytes that are still missing. */
    method Fill() returns (r: Got)
      requires Consistent() && toRecv > 0
      modifies this`toRecv, this`bufPos, sock, buf
      ensures Consistent() && state == old(state)
      ensures r.Count? ==> toRecv == 0 && |sock.grants| < old(|sock.grants|)
      ensures !r.Count? ==> toRecv > 0
      ensures r.Eof? ==> sock.pos == |sock.stream|
      ensures OneMore(old(sock.log), sock.log) && Explains(r, sock.log[|sock.log| - 1])
      ensures r.Count? ==> sock.log[|sock.log| - 1].Full()
      ensures sock.grants == if old(sock.grants) == [] then [] else old(sock.grants)[1..]
      ensures !InPayload() && (old(Plenty()) ==> !r.Again? && (r.Count? ==> Plenty()))
    {
      hide OnTrack;
      ghost var s := Now();
      HeaderFits(s, all);
      HeaderComes(s, all);
      r := sock.Read(buf, bufPos, toRecv);
      if !r.Count? {
        assert buf[..bufPos] == s.got;
        return;
      }
      FillKeeps(s, r.n, all);
      bufPos, toRecv := bufPos + r.n, toRecv - r.n;
      assert buf[..bufPos] == s.got + s.unread[..r.n];
      assert sock.Unread() == s.unread[r.n..];
      if toRecv != 0 {
        return Again;
      }
    }

    /** The copies of the frame's flags that a header leaves behind. */
    method Flags()
      requires buf.Length == 6 && Recorded() && state.FRAME_HEADER? && todo != [] && buf[0] % 16 == todo[0].opcode
      modifies this`lastFlags, this`wsFlags, this`seen
      ensures lastFlags == buf[0] && wsFlags == NextFlags(old(wsFlags), buf[0])
      ensures Records(frames, todo, seen, false, first, wsFlags % 16)
    {
      hide Records;
      SeenOneMore(frames, todo, seen, first, wsFlags, buf[0]);
      seen := seen + [todo[0]];
      lastFlags := buf[0];
      if buf[0] % 16 == 0 {
        wsFlags := wsFlags % 16 + (buf[0] - buf[0] % 16);
      } else {
        wsFlags := buf[0];
      }
    }

    /** case FRAME_HEADER: the first two bytes are there. */
    method Header()
      requires Consistent() && Recorded() && state.FRAME_HEADER? && toRecv == 0
      modifies this`state, this`toRecv, this`bufPos, this`msgSz, this`mask, this`lastFlags, this`wsFlags, this`seen
      ensures Consistent() && Recorded() && !state.FRAME_HEADER? && (state.FRAME_OPT? ==> toRecv > 0)
      ensures lastFlags == buf[0] && wsFlags == NextFlags(old(wsFlags), buf[0])
    {
      hide OnTrack, NextFlags, AfterHeader, Records;
      ghost var s := Now();
      HeaderKeeps(s, all);
      assert s.got == [buf[0], buf[1]];
      HeaderOpcode(s, all);
      Flags();
      var frameType := buf[0] % 16;
      mask := NO_MASK;
      var need := 0;
      var sz := buf[1] % 128;
      if sz == 126 {
        need := need + 2;
      }
      if buf[1] >= 128 {
        need := need + 4;
      }
      assert need == Need(buf[1]);
      hide Need;
      bufPos := 0;
      toRecv := need;
      msgSz := sz;
      if need != 0 {
        state := FRAME_OPT;
      } else {
        state := if frameType >= 8 then CONTROL else PAYLOAD;
      }
      assert Now() == AfterHeader(s) by {
        HeaderSeen(s, buf[0], buf[1]);
      }
    }

    /** MP_STREAM_GET_DATA_OPTS of websocket_ioctl: after any reads, the opcode of the last frame
        seen that is not a continuation. */
    method DataOpts() returns (opcode: nat)
      requires Valid()
      ensures seen <= frames && opcode == LastOpcode(first, seen)
    {
      opcode := wsFlags % 16;
    }

    /** case FRAME_OPT: the rest of the header is there. */
    method Option()
      requires Consistent() && state.FRAME_OPT? && toRecv == 0
      modifies this`state, this`bufPos, this`msgSz, this`mask
      ensures Consistent() && InPayload()
    {
      hide OnTrack, AfterOpt, Records;
      ghost var s := Now();
      OptKeeps(s, all);
      if bufPos % 4 == 2 {
        msgSz := buf[0] as int * 256 + buf[1] as int;
        assert s.got[0] == buf[0] && s.got[1] == buf[1];
      }
      if bufPos >= 4 {
        mask := buf[bufPos - 4..bufPos];
        assert s.got[bufPos - 4..] == buf[bufPos - 4..bufPos];
      }
      OptSeen(s, msgSz, mask);
      bufPos := 0;
      state := if lastFlags % 16 >= 8 then CONTROL else PAYLOAD;
      assert Now() == AfterOpt(s);
    }

    /** no_payload: the frame is over. */
    method FrameDone()
      requires Consistent() && Recorded() && InPayload() && msgSz == 0
      modifies this`state, this`toRecv, this`maskPos, this`bufPos, this`todo
      ensures Consistent() && Recorded() && state.FRAME_HEADER? && toRecv > 0 && |todo| < old(|todo|)
    {
      DoneKeeps(Now(), all);
      hide OnTrack;
      state := FRAME_HEADER;
      toRecv := 2;
      maskPos := 0;
      bufPos := 0;
      todo := todo[1..];
      assert buf[..0] == [];
    }

    /** The loop over the bytes just read, unmasking them in place. */
    method Unmask(dst: array<Byte>, n: nat, ghost f: Frame, ghost done: nat)
      requires mask == KeyOf(f) && n <= dst.Length
      requires maskPos % 4 == done % 4 && done + n <= |f.payload|
      requires dst[..n] == Body(f)[done..done + n]
      modifies this`maskPos, dst
      ensures dst[..n] == f.payload[done..done + n]
      ensures maskPos % 4 == (done + n) % 4
    {
      hide Body, KeyOf;
      assert forall j | 0 <= j < n :: dst[j] == dst[..n][j] == Body(f)[done + j];
      for i := 0 to n
        invariant maskPos % 4 == (done + i) % 4
        invariant forall j | 0 <= j < i :: dst[j] == f.payload[done + j]
        invariant forall j | i <= j < n :: dst[j] == Body(f)[done + j]
      {
        Unmasks(f, done + i);
        dst[i] := Xor(dst[i], mask[maskPos % 4]);
        MaskStep(maskPos, done + i);
        maskPos := (maskPos + 1) % 256;
      }
      SameBytes(dst[..n], f.payload, done);
    }

    /** case PAYLOAD, CONTROL. None means the loop goes on. */
    method Payload(dst: array<Byte>) returns (r: Option<Got>)
      requires Consistent() && Recorded() && InPayload() && dst.Length > 0 && dst != buf
      modifies this`state, this`toRecv, this`maskPos, this`bufPos, this`msgSz, this`todo, this`delivered, sock, dst
      ensures Consistent() && Recorded() && (!InPayload() ==> toRecv > 0)
      ensures r.None? ==> !InPayload() && delivered == old(delivered) && sock.grants == old(sock.grants)
      ensures r.None? ==> sock.log == old(sock.log) && Budget() <= old(Budget())
      ensures r.Some? ==> OneMore(old(sock.log), sock.log) && r.value == sock.log[|sock.log| - 1].got
      ensures r.Some? && r.value.Again? ==> !old(Plenty())
      ensures r.Some? && r.value.Count? ==> 0 < r.value.n <= dst.Length && delivered == old(delivered) + dst[..r.value.n]
      ensures r.Some? && r.value.Count? ==> |sock.log| > 0 && AsksForAll(dst.Length, r.value.n, msgSz, sock.log[|sock.log| - 1])
      ensures r.Some? && !r.value.Count? ==> delivered == old(delivered)
      ensures r.Some? && r.value.Eof? ==> sock.pos == |sock.stream|
    {
      hide OnTrack, Records;
      BodyComes(Now(), all);
      if msgSz == 0 {
        FrameDone();
        return None;
      }
      var got := ReadPayload(dst);
      if got.Count? && msgSz == 0 {
        FrameDone();
      }
      return Some(got);
    }

    /** How many reads of the socket it takes at most to get to the next payload byte: two for the
        header of each frame, and one for that byte. */
    ghost function Budget(): int
      reads this
    {
      2 * |todo| + (match state case FRAME_HEADER => 1 case FRAME_OPT => 0 case _ => -1)
      - (if !InPayload() && toRecv == 0 then 1 else 0)
    }

    /** Enough arrives at each read for a part of a header, and at enough of them. */
    ghost predicate Plenty()
      reads this, sock
    {
      |sock.grants| >= Budget() && forall i | 0 <= i < |sock.grants| :: sock.grants[i] >= 6
    }

    /** websocket_read. It gives up only when the socket has nothing, or not all that is missing of a
        header; all reads of the socket before that have given just what was missing. */
    method Read(dst: array<Byte>) returns (r: Got)
      requires Valid() && dst.Length > 0 && dst != buf
      modifies this, sock, buf, dst
      ensures Valid()
      ensures r.Count? ==> 0 < r.n <= dst.Length && delivered == old(delivered) + dst[..r.n]
      ensures !r.Count? ==> delivered == old(delivered)
      ensures r.Eof? ==> sock.pos == |sock.stream|
      ensures |sock.log| > 0 && GaveUp(old(sock.log), sock.log, r)
      ensures r.Again? && sock.log[|sock.log| - 1].Short() ==> !InPayload()
      ensures r.Count? ==> AsksForAll(dst.Length, r.n, msgSz, sock.log[|sock.log| - 1])
      ensures old(Plenty()) && old(delivered) != all ==> r.Count?
    {
      hide OnTrack, Records, Plenty, AllFull, GaveUp;
      ghost var was := sock.log;
      NothingRead(was);
      while true
        invariant Valid() && delivered == old(delivered) && AllFull(was, sock.log)
        invariant old(Plenty()) ==> Plenty()
        decreases |sock.grants|, if InPayload() then 1 else 0
      {
        var got := Round(dst, was);
        if got.Some? {
          return got.value;
        }
      }
    }

    /** Once through the loop. */
    method Round(dst: array<Byte>, ghost was: seq<Attempt>) returns (r: Option<Got>)
      requires Valid() && dst.Length > 0 && dst != buf && AllFull(was, sock.log)
      modifies this, sock, buf, dst
      ensures Valid()
      ensures r.None? ==> delivered == old(delivered) && AllFull(was, sock.log) && (old(Plenty()) ==> Plenty())
      ensures r.None? ==> |sock.grants| < old(|sock.grants|) || (sock.grants == old(sock.grants) && old(InPayload()) && !InPayload())
      ensures r.Some? && r.value.Count? ==> 0 < r.value.n <= dst.Length && delivered == old(delivered) + dst[..r.value.n]
      ensures r.Some? && r.value.Count? ==> |sock.log| > 0 && AsksForAll(dst.Length, r.value.n, msgSz, sock.log[|sock.log| - 1])
      ensures r.Some? && !r.value.Count? ==> delivered == old(delivered)
      ensures r.Some? && r.value.Eof? ==> sock.pos == |sock.stream| && delivered == all
      ensures r.Some? ==> |sock.log| > 0 && GaveUp(was, sock.log, r.value)
      ensures r.Some? && r.value.Again? ==> !old(Plenty()) && (sock.log[|sock.log| - 1].Short() ==> !InPayload())
    {
      hide OnTrack, Records, Plenty, AllFull, OneMore, GaveUp;
      ghost var log := sock.log;
      if toRecv != 0 {
        var got := Fill();
        ReadOnce(was, log, sock.log, got);
        if !got.Count? {
          DeliversAPrefix();
          return Some(got);
        }
        log := sock.log;
      }
      r := Turn(dst);
      if r.Some? {
        ReadOnce(was, log, sock.log, r.value);
        DeliversAPrefix();
      }
    }

    /** The switch on the state, when no header bytes are missing. */
    method Turn(dst: array<Byte>) returns (r: Option<Got>)
      requires Consistent() && Recorded() && (!InPayload() ==> toRecv == 0) && dst.Length > 0 && dst != buf
      modifies this, sock, dst
      ensures Valid()
      ensures r.None? ==> delivered == old(delivered) && sock.grants == old(sock.grants) && (old(InPayload()) ==> !InPayload())
      ensures r.None? ==> sock.log == old(sock.log) && (old(Plenty()) ==> Plenty())
      ensures r.Some? ==> OneMore(old(sock.log), sock.log) && r.value == sock.log[|sock.log| - 1].got
      ensures r.Some? && r.value.Again? ==> !old(Plenty())
      ensures r.Some? && r.value.Count? ==> 0 < r.value.n <= dst.Length && delivered == old(delivered) + dst[..r.value.n]
      ensures r.Some? && r.value.Count? ==> |sock.log| > 0 && AsksForAll(dst.Length, r.value.n, msgSz, sock.log[|sock.log| - 1])
      ensures r.Some? && !r.value.Count? ==> delivered == old(delivered)
      ensures r.Some? && r.value.Eof? ==> sock.pos == |sock.stream|
    {
      hide OnTrack, Records;
      r := None;
      match state
      case FRAME_HEADER => Header();
      case FRAME_OPT => Option();
      case PAYLOAD | CONTROL => r := Payload(dst);
    }

    /** Whatever happened so far, what was returned is a prefix of what the frames say; and once
        the stream is used up, it is all of it. */
    lemma DeliversAPrefix()
      requires Valid()
      ensures delivered <= all
      ensures sock.pos == |sock.stream| ==> delivered == all
    {
      PrefixSoFar(Now(), all);
      hide OnTrack;
      assert sock.pos == |sock.stream| ==> sock.Unread() == [];
    }

    /** One read of payload bytes from the socket straight to the caller. */
    method ReadPayload(dst: array<Byte>) returns (r: Got)
      requires Consistent() && InPayload() && msgSz > 0 && dst.Length > 0 && dst != buf
      modifies this`maskPos, this`msgSz, this`delivered, sock, dst
      ensures Consistent()
      ensures OneMore(old(sock.log), sock.log) && r == sock.log[|sock.log| - 1].got
      ensures r.Again? ==> old(sock.grants) == [] || old(sock.grants)[0] == 0
      ensures r.Count? ==> AsksForAll(dst.Length, r.n, msgSz, sock.log[|sock.log| - 1])
      ensures r.Count? ==> 0 < r.n <= dst.Length && delivered == old(delivered) + dst[..r.n]
      ensures !r.Count? ==> delivered == old(delivered)
      ensures r.Eof? ==> sock.pos == |sock.stream|
    {
      hide OnTrack, Body, KeyOf, OneMore;
      ghost var s := Now();
      var sz := if dst.Length < msgSz then dst.Length else msgSz;
      r := Pull(dst, sz);
      if !r.Count? {
        return;
      }
      NextBytes(s, r.n, all);
      Take(dst, r.n, s);
    }

    /** They are unmasked and delivered. */
    method Take(dst: array<Byte>, n: nat, ghost s: Snap)
      requires sock.Valid() && buf.Length == 6 && bufPos <= 6 && dst != buf && n <= dst.Length && mask == s.mask
      requires OnTrack(s, all) && (s.state.PAYLOAD? || s.state.CONTROL?) && 0 < n <= s.msgSz && n <= |s.unread|
      requires s.todo != [] && s.msgSz <= |s.todo[0].payload| && s.mask == KeyOf(s.todo[0])
      requires s.maskPos % 4 == (|s.todo[0].payload| - s.msgSz) % 4
      requires var done := |s.todo[0].payload| - s.msgSz; dst[..n] == Body(s.todo[0])[done..done + n]
      requires Now() == s.(unread := s.unread[n..])
      modifies this`maskPos, this`msgSz, this`delivered, dst
      ensures Consistent() && delivered == old(delivered) + dst[..n] && msgSz == s.msgSz - n
    {
      hide OnTrack, Body, KeyOf, AfterTake;
      ghost var f, done := s.todo[0], |s.todo[0].payload| - s.msgSz;
      Unmask(dst, n, f, done);
      TakeKeeps(s, n, maskPos, dst[..n], all);
      Taken(n, s, dst[..n]);
    }

    /** The bytes are counted as delivered. */
    method Taken(n: nat, ghost s: Snap, ghost taken: seq<Byte>)
      requires sock.Valid() && bufPos <= buf.Length && n <= msgSz == s.msgSz && n <= |s.unread|
      requires Now() == s.(unread := s.unread[n..], maskPos := maskPos)
      modifies this`msgSz, this`delivered
      ensures Now() == AfterTake(s, n, maskPos, taken) && delivered == old(delivered) + taken && msgSz == s.msgSz - n
    {
      msgSz := msgSz - n;
      delivered := delivered + taken;
    }

    /** A read of the socket to the caller's buffer. */
    method Pull(dst: array<Byte>, sz: nat) returns (r: Got)
      requires sock.Valid() && bufPos <= buf.Length && 0 < sz <= dst.Length && dst != buf
      modifies sock, dst
      ensures sock.Valid()
      ensures r.Count? ==> 0 < r.n <= sz && r.n <= |old(sock.Unread())| && dst[..r.n] == old(sock.Unread())[..r.n]
      ensures r.Count? ==> Now() == old(Now()).(unread := old(sock.Unread())[r.n..])
      ensures !r.Count? ==> Now() == old(Now())
      ensures r.Eof? ==> sock.pos == |sock.stream|
      ensures OneMore(old(sock.log), sock.log) && sock.log[|sock.log| - 1] == Attempt(sz, r)
      ensures r.Again? ==> old(sock.grants) == [] || old(sock.grants)[0] == 0
    {
      r := sock.Read(dst, 0, sz);
    }
  }

  lemma Delivers(delivered: seq<Byte>, payload: seq<Byte>, done: nat, n: nat, rest: seq<Byte>)
    requires done + n <= |payload|
    ensures delivered + (payload[done..] + rest)
         == delivered + payload[done..done + n] + (payload[done + n..] + rest)
  {
    assert payload[done..] == payload[done..done + n] + payload[done + n..];
  }

  /** The one-byte counter may wrap around: 256 is a multiple of 4. */
  lemma MaskStep(p: nat, d: nat)
    requires p % 4 == d % 4
    ensures (p + 1) % 256 % 4 == (d + 1) % 4
  {
    var q, r := (p + 1) / 256, (p + 1) % 256;
    assert p + 1 == 4 * (64 * q) + r;
  }

  lemma SameBytes(a: seq<Byte>, b: seq<Byte>, from: nat)
    requires from + |a| <= |b| && forall j | 0 <= j < |a| :: a[j] == b[from + j]
    ensures a == b[from..from + |a|]
  {
  }

  /** Taking n more bytes of a masked payload off the stream. */
  lemma Advance(f: Frame, done: nat, n: nat, u: seq<Byte>, rest: seq<Byte>)
    requires done + n <= |f.payload| && u == Body(f)[done..] + rest && n <= |u|
    ensures u[..n] == Body(f)[done..done + n]
    ensures u[n..] == Body(f)[done + n..] + rest
  {
  }

  /** The flag and length bits of the two header bytes. */
  lemma HeadBits(f: Frame, b0: Byte, b1: Byte)
    requires FrameOk(f) && Head(f) == [b0, b1]
    ensures b0 >= 0x80 && b0 % 16 == f.opcode && b1 % 128 == Length7(f)
    ensures b1 >= 0x80 <==> f.key.Some?
    ensures (b1 % 128 == 126) == f.wide
    ensures |Opt(f)| == (if f.wide then 2 else 0) + (if f.key.Some? then 4 else 0)
    ensures Opt(f) == [] ==> KeyOf(f) == NO_MASK && Length7(f) == |f.payload|
  {
    assert Head(f)[0] == b0 && Head(f)[1] == b1;
  }

  /** What the optional header bytes hold. */
  lemma OptBytes(f: Frame, o: seq<Byte>)
    requires FrameOk(f) && o == Opt(f) && o != []
    ensures |o| % 4 == 2 ==> o[0] as int * 256 + o[1] as int == |f.payload|
    ensures |o| % 4 != 2 ==> Length7(f) == |f.payload|
    ensures |o| >= 4 ==> o[|o| - 4..] == KeyOf(f)
    ensures |o| < 4 ==> KeyOf(f) == NO_MASK
  {
  }

  /** Before its first byte a frame has everything still to say. */
  lemma FrameBegins(fs: seq<Frame>)
    requires FramesOk(fs) && fs != []
    ensures Payloads(fs) == (if IsControl(fs[0]) then [] else fs[0].payload[0..]) + Payloads(fs[1..])
    ensures Body(fs[0])[0..] == Body(fs[0])
  {
  }

  /** A stream with a frame on it has at least the two bytes of its header. */
  lemma WiresLong(fs: seq<Frame>)
    requires FramesOk(fs)
    ensures fs != [] ==> |Wires(fs)| >= 2
    ensures fs != [] && fs[1..] != [] ==> |Wires(fs[1..])| >= 2
  {
    if fs != [] {
      assert |Wire(fs[0])| >= 2;
      if fs[1..] != [] {
        assert |Wire(fs[1..][0])| >= 2;
      }
    }
  }

  // ---------- The writer ----------

  /** A header of two or four bytes, and the data. */
  function Sent(opts: Byte, data: seq<Byte>): seq<Byte>
    requires |data| < 0x1_0000
  {
    [0x80 + opts % 16] + (if |data| < 126 then [|data|] else [126, |data| / 256, |data| % 256]) + data
  }

  function WrittenFrame(opts: Byte, data: seq<Byte>): Frame {
    Frame(opts % 16, None, |data| >= 126, data)
  }

  /** websocket_write: one unmasked frame, of less than 65536 bytes, with the opcode of opts. */
  /** The shortest form of the length, as section 5.2 of RFC 6455 asks. */
  lemma LengthIsShortest(opts: Byte, data: seq<Byte>)
    requires |data| < 0x1_0000
    ensures WrittenFrame(opts, data).wide <==> |data| > 125
    ensures |Sent(opts, data)| == |data| + if |data| <= 125 then 2 else 4
  {
  }

  method Write(opts: Byte, data: seq<Byte>) returns (sent: seq<Byte>)
    requires |data| < 0x1_0000
    ensures sent == Sent(opts, data)
    ensures opts % 16 != OPCODE_CLOSE && (opts % 16 > OPCODE_CLOSE ==> data == []) ==>
              FrameOk(WrittenFrame(opts, data)) && sent == Wire(WrittenFrame(opts, data))
  {
    var header: seq<Byte> := [0x80 + opts % 16];
    var size := |data|;
    if size < 126 {
      header := header + [size];
    } else {
      header := header + [126, size / 256, size % 256];
    }
    sent := header + data;
    if opts % 16 != OPCODE_CLOSE && (opts % 16 > OPCODE_CLOSE ==> data == []) {
      SentIsAFrame(opts, data);
    }
  }

  lemma SentIsAFrame(opts: Byte, data: seq<Byte>)
    requires |data| < 0x1_0000 && opts % 16 != OPCODE_CLOSE && (opts % 16 > OPCODE_CLOSE ==> data == [])
    ensures FrameOk(WrittenFrame(opts, data)) && Sent(opts, data) == Wire(WrittenFrame(opts, data))
  {
    var n := |data|;
    assert [n / 256 % 256, n % 256] + [] == [n / 256 % 256, n % 256];
  }

  /** What the writer sends the reader understands: the bytes of any calls are the wire form of
      frames whose payloads are the data written, so that a reader of that stream says the data. */
  lemma {:induction false} WrittenIsSaid(opts: Byte, data: seq<seq<Byte>>) returns (fs: seq<Frame>)
    requires opts % 16 < OPCODE_CLOSE && forall i | 0 <= i < |data| :: |data[i]| < 0x1_0000
    ensures FramesOk(fs) && Payloads(fs) == Flat(data)
    ensures Wires(fs) == Flat(seq(|data|, i requires 0 <= i < |data| => Sent(opts, data[i])))
    decreases |data|
  {
    var sent := seq(|data|, i requires 0 <= i < |data| => Sent(opts, data[i]));
    if data == [] {
      fs := [];
    } else {
      var rest := WrittenIsSaid(opts, data[1..]);
      SentIsAFrame(opts, data[0]);
      hide Sent, Wire;
      fs := [WrittenFrame(opts, data[0])] + rest;
      assert fs[1..] == rest;
      assert sent[1..] == seq(|data[1..]|, i requires 0 <= i < |data[1..]| => Sent(opts, data[1..][i]));
    }
  }
}
