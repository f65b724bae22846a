/** The I2C master that drives its two lines by hand (machine_i2c.c), watched by a monitor of the
    bus. Clock stretching takes no time here, and never times out. */
module SoftI2C {
  import Arith
  import opened Basics
  import opened Bytes

  // ---------- The bus as a monitor sees it (sections 3.1.3 to 3.1.6 of UM10204) ----------

  /** What the master does with the two lines; true is released. */
  datatype Lines = Lines(scl: bool, sda: bool)

  datatype Event = Start | Stop | Bit(value: bool)

  datatype Latch = Nothing | Latched(value: bool)

  datatype Monitor = Monitor(lines: Lines, latch: Latch, events: seq<Event>)

  /** A change of SDA while SCL is high is a START or a STOP; a bit is the level of SDA when SCL
      rises, if SCL falls again before SDA changes. */
  function Observe(m: Monitor, now: Lines): Monitor {
    var was := m.lines;
    if was.scl && now.scl then
      if was.sda && !now.sda then Monitor(now, Nothing, m.events + [Start])
      else if !was.sda && now.sda then Monitor(now, Nothing, m.events + [Stop])
      else m.(lines := now)
    else if now.scl then Monitor(now, Latched(now.sda), m.events)
    else if was.scl then
      Monitor(now, Nothing, if m.latch.Latched? then m.events + [Bit(m.latch.value)] else m.events)
    else m.(lines := now)
  }

  /** While SCL is high, SDA falling starts a transfer and SDA rising ends it; while SCL is low, SDA may
      change, and what stands on it when SCL rises and falls again is a bit. */
  lemma WhatTheBusSees(m: Monitor, value: bool)
    requires m.latch.Nothing?
    ensures m.lines == Lines(true, true) ==> Observe(m, Lines(true, false)).events == m.events + [Start]
    ensures m.lines == Lines(true, false) ==> Observe(m, Lines(true, true)).events == m.events + [Stop]
    ensures m.lines == Lines(false, !value) ==>
              Observe(Observe(Observe(m, Lines(false, value)), Lines(true, value)), Lines(false, value)).events
              == m.events + [Bit(value)]
  {
  }

  const IDLE := Monitor(Lines(true, true), Nothing, [])

  function Watch(trace: seq<Lines>): Monitor
    decreases |trace|
  {
    if trace == [] then IDLE else Observe(Watch(trace[..|trace| - 1]), trace[|trace| - 1])
  }

  /** How often SDA changes while SCL stays high. */
  function ChangesWhileHigh(was: Lines, trace: seq<Lines>): nat
    decreases |trace|
  {
    if trace == [] then 0
    else
      var now := trace[0];
      (if was.scl && now.scl && was.sda != now.sda then 1 else 0) + ChangesWhileHigh(now, trace[1..])
  }

  function Conditions(events: seq<Event>): nat
    decreases |events|
  {
    if events == [] then 0
    else Conditions(events[..|events| - 1]) + if events[|events| - 1].Bit? then 0 else 1
  }

  lemma {:induction false} OneMoreChange(was: Lines, trace: seq<Lines>, now: Lines)
    ensures var last := if trace == [] then was else trace[|trace| - 1];
            ChangesWhileHigh(was, trace + [now])
            == ChangesWhileHigh(was, trace) + if last.scl && now.scl && last.sda != now.sda then 1 else 0
    decreases |trace|
  {
    if trace == [] {
      assert ([now])[1..] == [];
    } else {
      OneMoreChange(trace[0], trace[1..], now);
      assert (trace + [now])[1..] == trace[1..] + [now];
    }
  }

  lemma NoConditions()
    ensures Conditions([]) == 0
  {
  }

  lemma ObserveCounts(m: Monitor, now: Lines)
    ensures Conditions(Observe(m, now).events)
            == Conditions(m.events) + if m.lines.scl && now.scl && m.lines.sda != now.sda then 1 else 0
    ensures Observe(m, now).lines == now
  {
    var e := Observe(m, now).events;
    if |e| > |m.events| {
      assert e[..|e| - 1] == m.events;
    }
  }

  /** Every change of SDA while SCL is high is in the monitor's record as a START or a STOP. */
  lemma {:induction false} ChangesAreConditions(trace: seq<Lines>)
    ensures ChangesWhileHigh(IDLE.lines, trace) == Conditions(Watch(trace).events)
    ensures Watch(trace).lines == if trace == [] then IDLE.lines else trace[|trace| - 1]
    decreases |trace|
  {
    hide Observe, Conditions;
    if trace == [] {
      NoConditions();
    } else {
      var l := |trace| - 1;
      ChangesAreConditions(trace[..l]);
      OneMoreChange(IDLE.lines, trace[..l], trace[l]);
      assert trace[..l] + [trace[l]] == trace;
      ObserveCounts(Watch(trace[..l]), trace[l]);
    }
  }

  // ---------- Bytes as bits, most significant first ----------

  function MsbFirst(v: nat, n: nat): (bits: seq<bool>)
    ensures |bits| == n
  {
    if n == 0 then [] else MsbFirst(v / 2, n - 1) + [v % 2 == 1]
  }

  function FromBits(bits: seq<bool>): nat {
    if bits == [] then 0 else 2 * FromBits(bits[..|bits| - 1]) + if bits[|bits| - 1] then 1 else 0
  }

  lemma {:induction false} FromBitsBound(bits: seq<bool>)
    ensures FromBits(bits) < Pow2(|bits|)
    decreases |bits|
  {
    if bits == [] {
    } else {
      FromBitsBound(bits[..|bits| - 1]);
    }
  }

  /** A byte that is sent bit by bit is the byte received. */
  lemma {:induction false} BitsRoundTrip(v: nat, n: nat)
    requires v < Pow2(n)
    ensures FromBits(MsbFirst(v, n)) == v
    decreases n
  {
    if n == 0 {
    } else {
      BitsRoundTrip(v / 2, n - 1);
      assert MsbFirst(v, n)[..n - 1] == MsbFirst(v / 2, n - 1);
    }
  }

  lemma DivTwice(v: nat, p: nat)
    requires p > 0
    ensures v / (2 * p) == v / 2 / p
  {
    Arith.DivMod(v, 2);
    Arith.DivMod(v / 2, p);
    var q, r := v / 2 / p, (v / 2) % p;
    assert v == q * (2 * p) + (2 * r + v % 2);
    Arith.Unpack(2 * p, q, 2 * r + v % 2);
  }

  lemma {:induction false} Pow2Positive(k: nat)
    ensures Pow2(k) > 0
  {
    if k > 0 {
      Pow2Positive(k - 1);
    }
  }

  /** (v >> i) & 1 is the bit that is i places from the end. */
  lemma {:induction false} BitAt(v: nat, n: nat, k: nat)
    requires k < n
    ensures Pow2(n - 1 - k) > 0 && MsbFirst(v, n)[k] == (v / Pow2(n - 1 - k) % 2 == 1)
    decreases n
  {
    Pow2Positive(n - 1 - k);
    if k < n - 1 {
      Pow2Positive(n - 2 - k);
      BitAt(v / 2, n - 1, k);
      DivTwice(v, Pow2(n - 2 - k));
    }
  }

  function AsEvents(bits: seq<bool>): seq<Event> {
    seq(|bits|, i requires 0 <= i < |bits| => Bit(bits[i]))
  }

  lemma NoBits(e: seq<Event>, bits: seq<bool>)
    ensures e + AsEvents(bits[..0]) == e
  {
  }

  lemma BitsMore(e: seq<Event>, bits: seq<bool>, k: nat)
    requires k < |bits|
    ensures e + AsEvents(bits[..k + 1]) == e + AsEvents(bits[..k]) + [Bit(bits[k])]
  {
    assert AsEvents(bits[..k + 1]) == AsEvents(bits[..k]) + [Bit(bits[k])];
  }

  lemma NoBitsYet(bits: seq<bool>)
    ensures FromBits(bits[..0]) == 0
  {
  }

  lemma OneMoreBit(bits: seq<bool>, k: nat)
    requires k < |bits|
    ensures FromBits(bits[..k + 1]) == 2 * FromBits(bits[..k]) + if bits[k] then 1 else 0
  {
    assert bits[..k + 1][..k] == bits[..k];
  }

  /** A byte written: its bits, then SDA released for the acknowledgement. */
  function Frame(v: Byte): seq<Event> {
    AsEvents(MsbFirst(v, 8)) + [Bit(true)]
  }

  function Frames(bytes: seq<Byte>): seq<Event> {
    if bytes == [] then [] else Frames(bytes[..|bytes| - 1]) + Frame(bytes[|bytes| - 1])
  }

  /** A byte read: SDA released for the slave's eight bits, then the master's acknowledgement. */
  function ReadFrame(nack: bool): seq<Event> {
    AsEvents([true, true, true, true, true, true, true, true]) + [Bit(nack)]
  }

  /** A buffer of len bytes read, the last one of the last buffer not acknowledged. */
  function BufferFrames(len: nat, last: bool): seq<Event> {
    if len == 0 then [] else ReadFrame(last && len == 1) + BufferFrames(len - 1, last)
  }

  function ReadFrames(lens: seq<nat>): seq<Event> {
    if lens == [] then [] else BufferFrames(lens[0], |lens| == 1) + ReadFrames(lens[1..])
  }

  /** The byte the slave drives from clock pulse c on. */
  function SlaveByte(slave: nat -> bool, c: nat): Byte {
    var bits := seq(8, i requires 0 <= i < 8 => slave(c + i));
    FromBitsBound(bits);
    Pow2Of8();
    FromBits(bits)
  }

  function SlaveBytes(slave: nat -> bool, c: nat, n: nat): (s: seq<Byte>)
    ensures |s| == n
  {
    seq(n, i requires 0 <= i < n => SlaveByte(slave, c + 9 * i))
  }

  // ---------- What a transfer amounts to ----------

  /** Whether the slave leaves byte i, of those whose frames start at pulse c, without acknowledgement. */
  function Nacked(slave: nat -> bool, c: nat, i: nat): bool {
    slave(c + 9 * i + 8)
  }

  ghost predicate AllAcked(slave: nat -> bool, c: nat, k: nat) {
    forall i | 0 <= i < k :: !Nacked(slave, c, i)
  }

  /** Of n bytes, k are acknowledged before the first that is not. */
  ghost predicate FirstNack(slave: nat -> bool, c: nat, n: nat, k: nat) {
    k <= n && AllAcked(slave, c, k) && (k < n ==> Nacked(slave, c, k))
  }

  /** How many bytes go out: up to and including the first that is not acknowledged. */
  function Sent(n: nat, k: nat): nat {
    if k < n then k + 1 else n
  }

  /** The data of a transfer on the bus: the buffers read, or the bytes written up to and including
      the first that is not acknowledged. */
  function Body(read: bool, lens: seq<nat>, bytes: seq<Byte>, acks: nat): seq<Event> {
    if read then ReadFrames(lens) else Frames(bytes[..Sent(|bytes|, acks)])
  }

  /** START, the address byte, the data, and STOP if the transfer stops. */
  function Conversation(v: Byte, body: seq<Event>, stop: bool): seq<Event> {
    [Start] + Frame(v) + body + if stop then [Stop] else []
  }

  lemma Joined(e: seq<Event>, v: Byte, body: seq<Event>, stop: bool)
    ensures e + [Start] + Frame(v) + body + (if stop then [Stop] else []) == e + Conversation(v, body, stop)
  {
    hide Frame;
    var last := if stop then [Stop] else [];
    Assoc(e, [Start], Frame(v));
    Assoc(e, [Start] + Frame(v), body);
    Assoc(e, [Start] + Frame(v) + body, last);
  }

  lemma {:induction false} FramesConcat(a: seq<Byte>, b: seq<Byte>)
    ensures Frames(a + b) == Frames(a) + Frames(b)
    decreases |b|
  {
    hide Frame;
    if b == [] {
      assert a + b == a;
    } else {
      var l := |b| - 1;
      assert (a + b)[..|a + b| - 1] == a + b[..l] && (a + b)[|a + b| - 1] == b[l];
      assert Frames(a + b) == Frames(a + b[..l]) + Frame(b[l]) && Frames(b) == Frames(b[..l]) + Frame(b[l]);
      hide Frames;
      FramesConcat(a, b[..l]);
      Assoc(Frames(a), Frames(b[..l]), Frame(b[l]));
    }
  }

  function Total(lens: seq<nat>): nat {
    if lens == [] then 0 else lens[0] + Total(lens[1..])
  }

  /** The master asks for the end by not acknowledging the last byte it reads (section 3.1.6 of
      UM10204) just when the last buffer is not empty. */
  lemma {:induction false} LastByteIsNacked(lens: seq<nat>)
    requires Total(lens) > 0
    ensures var e := ReadFrames(lens);
            e != [] && (e[|e| - 1] == Bit(true) <==> lens[|lens| - 1] > 0)
    decreases |lens|
  {
    if Total(lens[1..]) > 0 {
      LastByteIsNacked(lens[1..]);
    } else {
      NothingLeft(lens[1..]);
      BufferEnds(lens[0], |lens| == 1);
    }
  }

  /** Event k of nine in a byte that is read: SDA is released for the slave's eight bits, and then
      low to acknowledge it, or not. */
  lemma ReadFrameAt(nack: bool, k: nat)
    requires k < 9
    ensures |ReadFrame(nack)| == 9 && ReadFrame(nack)[k] == Bit(k < 8 || nack)
  {
  }

  /** T bytes are read, nine events each. All of them are acknowledged but the last, and that one
      too if the last buffer is empty. */
  ghost predicate AsksForMore(events: seq<Event>, from: nat, lens: seq<nat>) {
    var t := Total(lens);
    && from + 9 * t <= |events|
    && forall i: nat, k: nat | i < t && k < 9 ::
         EventOf(events, from, i, k) == Bit(k < 8 || (i + 1 == t && lens[|lens| - 1] > 0))
  }

  /** Event k of the i-th byte. */
  function EventOf(events: seq<Event>, from: nat, i: nat, k: nat): Event
    requires from + 9 * i + k < |events|
  {
    events[from + 9 * i + k]
  }

  lemma {:induction false} BufferAsks(len: nat, last: bool, i: nat, k: nat)
    requires i < len && k < 9
    ensures |BufferFrames(len, last)| == 9 * len
    ensures BufferFrames(len, last)[9 * i + k] == Bit(k < 8 || (i + 1 == len && last))
    decreases len
  {
    ReadFrameAt(last && len == 1, if i == 0 then k else 0);
    hide ReadFrame;
    BufferLength(len - 1, last);
    if i > 0 {
      BufferAsks(len - 1, last, i - 1, k);
    }
  }

  lemma {:induction false} BufferLength(len: nat, last: bool)
    ensures |BufferFrames(len, last)| == 9 * len
    decreases len
  {
    if len > 0 {
      ReadFrameAt(last && len == 1, 0);
      hide ReadFrame;
      BufferLength(len - 1, last);
    }
  }

  lemma {:induction false} ReadLength(lens: seq<nat>)
    ensures |ReadFrames(lens)| == 9 * Total(lens)
    decreases |lens|
  {
    hide BufferFrames;
    if lens != [] {
      BufferLength(lens[0], |lens| == 1);
      ReadLength(lens[1..]);
    }
  }

  lemma {:induction false} ReadAsks(lens: seq<nat>, i: nat, k: nat)
    requires i < Total(lens) && k < 9
    ensures |ReadFrames(lens)| == 9 * Total(lens)
    ensures ReadFrames(lens)[9 * i + k] == Bit(k < 8 || (i + 1 == Total(lens) && lens[|lens| - 1] > 0))
    decreases |lens|
  {
    hide BufferFrames;
    BufferLength(lens[0], |lens| == 1);
    ReadLength(lens[1..]);
    if i < lens[0] {
      BufferAsks(lens[0], |lens| == 1, i, k);
      if |lens| > 1 && i + 1 == Total(lens) {
        TotalHasAll(lens[1..], |lens| - 2);
      }
    } else {
      ReadAsks(lens[1..], i - lens[0], k);
    }
  }

  lemma {:induction false} TotalHasAll(lens: seq<nat>, j: nat)
    requires j < |lens|
    ensures lens[j] <= Total(lens)
    decreases |lens|
  {
    if j > 0 {
      TotalHasAll(lens[1..], j - 1);
    }
  }

  /** A read after the events e: a START, nine events for the address, nine for each byte, and a STOP
      if it stops. */
  ghost predicate IsRead(e: seq<Event>, events: seq<Event>, lens: seq<nat>, stop: bool) {
    && |events| == |e| + 10 + 9 * Total(lens) + (if stop then 1 else 0)
    && AsksForMore(events, |e| + 10, lens)
  }

  lemma ConversationAsks(e: seq<Event>, v: Byte, lens: seq<nat>, stop: bool)
    ensures IsRead(e, e + Conversation(v, ReadFrames(lens), stop), lens, stop)
  {
    hide Frame, ReadFrames;
    FrameLength(v);
    ReadLength(lens);
    var body, events := ReadFrames(lens), e + Conversation(v, ReadFrames(lens), stop);
    var front, last := e + ([Start] + Frame(v)), if stop then [Stop] else [];
    assert events == front + body + last;
    var from := |e| + 10;
    forall i: nat, k: nat | i < Total(lens) && k < 9
      ensures EventOf(events, from, i, k) == Bit(k < 8 || (i + 1 == Total(lens) && lens[|lens| - 1] > 0))
    {
      ReadAsks(lens, i, k);
      assert (front + body + last)[|front| + (9 * i + k)] == body[9 * i + k];
    }
  }

  lemma ReadConversation(e: seq<Event>, read: bool, v: Byte, lens: seq<nat>, bytes: seq<Byte>, acks: nat, stop: bool)
    ensures var events := e + Conversation(v, Body(read, lens, bytes, acks), stop);
            read ==> IsRead(e, events, lens, stop)
  {
    hide Conversation;
    ConversationAsks(e, v, lens, stop);
  }

  lemma FrameLength(v: Byte)
    ensures |Frame(v)| == 9
  {
  }

  /** Event k of nine in a byte that is written: its bits from the highest on, then SDA is released. */
  lemma FrameAt(v: Byte, k: nat)
    requires k < 9
    ensures Frame(v)[k] == Bit(k == 8 || (Pow2(7 - k) > 0 && v / Pow2(7 - k) % 2 == 1))
  {
    if k < 8 {
      BitAt(v, 8, k);
    }
  }

  lemma {:induction false} FramesAt(bytes: seq<Byte>, i: nat, k: nat)
    requires i < |bytes| && k < 9
    ensures |Frames(bytes)| == 9 * |bytes| && Frames(bytes)[9 * i + k] == Bit(k == 8 || (Pow2(7 - k) > 0 && bytes[i] / Pow2(7 - k) % 2 == 1))
    decreases |bytes|
  {
    var l := |bytes| - 1;
    FrameLength(bytes[l]);
    FrameAt(bytes[l], k);
    hide Frame;
    if l > 0 {
      FramesAt(bytes[..l], if i < l then i else 0, k);
    }
  }

  /** A read of one byte into the first of two buffers ends with the byte acknowledged. */
  lemma EmptyLastBuffer()
    ensures ReadFrames([1, 0]) == ReadFrame(false)
  {
    assert BufferFrames(1, false) == ReadFrame(false) + BufferFrames(0, false);
    assert ReadFrames([0]) == [];
    assert [1, 0][1..] == [0];
  }

  lemma {:induction false} NothingLeft(lens: seq<nat>)
    requires Total(lens) == 0
    ensures ReadFrames(lens) == [] && forall i | 0 <= i < |lens| :: lens[i] == 0
    decreases |lens|
  {
    if lens != [] {
      NothingLeft(lens[1..]);
    }
  }

  lemma {:induction false} BufferEnds(len: nat, last: bool)
    requires len > 0
    ensures var e := BufferFrames(len, last); e != [] && e[|e| - 1] == Bit(last)
    decreases len
  {
    if len > 1 {
      BufferEnds(len - 1, last);
    }
  }

  // ---------- The master ----------

  datatype Result = Acks(n: nat) | ENODEV

  class Master {
    var scl: bool
    var sda: bool
    var clock: nat                 // how often SCL has risen
    const slave: nat -> bool       // what the slave does with SDA in that pulse; true is released
    ghost var trace: seq<Lines>
    ghost var bus: Monitor

    ghost predicate Valid()
      reads this
    {
      bus == Watch(trace) && bus.lines == Lines(scl, sda)
    }

    /** Between the steps of a transfer no bit is under way. */
    ghost predicate Ready()
      reads this
    {
      Valid() && bus.latch.Nothing? && (scl ==> !sda)
    }

    constructor (slave: nat -> bool)
      ensures Valid() && bus == IDLE && this.slave == slave
    {
      scl, sda, clock, trace, bus := true, true, 0, [], IDLE;
      this.slave := slave;
    }

    method Drive(c: bool, d: bool)
      requires Valid()
      modifies this
      ensures Valid() && bus == Observe(old(bus), Lines(c, d)) && Lines(scl, sda) == Lines(c, d)
      ensures clock == old(clock) + if !old(scl) && c then 1 else 0
    {
      if !scl && c {
        clock := clock + 1;
      }
      scl, sda := c, d;
      ghost var was := trace;
      trace := trace + [Lines(c, d)];
      assert trace[..|trace| - 1] == was;
      bus := Observe(bus, Lines(c, d));
    }

    /** mp_hal_i2c_sda_read: open-drain, so either side can hold the line low. */
    method SdaRead() returns (level: bool)
      ensures level == (sda && (clock > 0 ==> slave(clock - 1)))
    {
      level := sda && (if clock > 0 then slave(clock - 1) else true);
    }

    /** mp_hal_i2c_start */
    method Begin()
      requires Valid() && (scl ==> sda)
      modifies this
      ensures Ready() && scl && bus.events == old(bus.events) + [Start]
      ensures clock == old(clock) + if old(scl) then 0 else 1
    {
      Drive(scl, true);
      Drive(true, sda);
      Drive(scl, false);
    }

    /** mp_hal_i2c_stop */
    method End()
      requires Ready()
      modifies this
      ensures Valid() && scl && sda && bus.latch.Nothing? && bus.events == old(bus.events) + [Stop]
      ensures clock == old(clock) + if old(scl) then 0 else 1
    {
      Drive(scl, false);
      Drive(true, sda);
      Drive(scl, true);
    }

    /** One pulse of the clock, with SDA as it is. */
    method Pulse() returns (level: bool)
      requires Valid() && !scl && bus.latch.Nothing?
      modifies this
      ensures Ready() && !scl && sda == old(sda) && clock == old(clock) + 1
      ensures bus.events == old(bus.events) + [Bit(old(sda))]
      ensures level == (sda && slave(old(clock)))
    {
      Drive(true, sda);
      level := SdaRead();
      Drive(false, sda);
    }

    /** mp_hal_i2c_sda_low and mp_hal_i2c_sda_release, while SCL is low. */
    method SetSda(level: bool)
      requires Valid() && !scl && bus.latch.Nothing?
      modifies this
      ensures Ready() && !scl && sda == level && clock == old(clock) && bus.events == old(bus.events)
    {
      Drive(scl, level);
    }

    /** mp_hal_i2c_scl_low between bits. */
    method SclLow()
      requires Ready()
      modifies this
      ensures Ready() && !scl && sda == old(sda) && clock == old(clock) && bus.events == old(bus.events)
    {
      Drive(false, sda);
    }

    /** mp_hal_i2c_write_byte: the byte goes out most significant bit first; whether the slave
        answered with a NACK. */
    method WriteByte(v: Byte) returns (nack: bool)
      requires Ready()
      modifies this
      ensures Ready() && !scl && sda && clock == old(clock) + 9
      ensures bus.events == old(bus.events) + Frame(v)
      ensures nack == Nacked(slave, old(clock), 0)
    {
      hide Observe, Watch, MsbFirst, AsEvents;
      SclLow();
      ghost var sent := MsbFirst(v, 8);
      NoBits(old(bus.events), sent);
      var i := 7;
      while i >= 0
        invariant -1 <= i <= 7 && Ready() && !scl && clock == old(clock) + 7 - i
        invariant bus.events == old(bus.events) + AsEvents(sent[..7 - i])
      {
        BitAt(v, 8, 7 - i);
        SetSda(v / Pow2(i) % 2 == 1);
        var _ := Pulse();
        BitsMore(old(bus.events), sent, 7 - i);
        i := i - 1;
      }
      assert sent[..8] == sent;
      Assoc(old(bus.events), AsEvents(sent), [Bit(true)]);
      SetSda(true);
      nack := Pulse();
    }

    /** mp_hal_i2c_read_byte */
    method ReadByte(nack: bool) returns (v: Byte)
      requires Ready() && !scl && sda
      modifies this
      ensures Ready() && !scl && sda && clock == old(clock) + 9
      ensures bus.events == old(bus.events) + ReadFrame(nack)
      ensures v == SlaveByte(slave, old(clock))
    {
      hide Observe, Watch, AsEvents, FromBits;
      SclLow();
      var data: nat := 0;
      ghost var ones := seq(8, i => true);
      ghost var bits := seq(8, i requires 0 <= i < 8 => slave(old(clock) + i));
      NoBits(old(bus.events), ones);
      NoBitsYet(bits);
      var i := 7;
      while i >= 0
        invariant -1 <= i <= 7 && Ready() && !scl && sda && clock == old(clock) + 7 - i
        invariant bus.events == old(bus.events) + AsEvents(ones[..7 - i])
        invariant data == FromBits(bits[..7 - i])
      {
        var level := Pulse();
        BitsMore(old(bus.events), ones, 7 - i);
        OneMoreBit(bits, 7 - i);
        data := 2 * data + if level then 1 else 0;
        i := i - 1;
      }
      assert bits[..8] == bits && ones[..8] == [true, true, true, true, true, true, true, true];
      FromBitsBound(bits);
      Pow2Of8();
      Assoc(old(bus.events), AsEvents(ones), [Bit(nack)]);
      v := data;
      if !nack {
        SetSda(false);
      }
      var _ := Pulse();
      SetSda(true);
    }

    /** The inner loop of a write: the buffer's bytes, up to the first that is not acknowledged. */
    method WriteBuffer(buf: seq<Byte>) returns (acks: nat, nacked: bool)
      requires Ready()
      modifies this
      ensures FirstNack(slave, old(clock), |buf|, acks) && acks <= |buf| && nacked == (acks < |buf|)
      ensures Ready() && (old(!scl && sda) || buf != [] ==> !scl && sda)
      ensures clock == old(clock) + 9 * Sent(|buf|, acks)
      ensures bus.events == old(bus.events) + Frames(buf[..Sent(|buf|, acks)])
    {
      acks, nacked := 0, false;
      NoFrames();
      hide Frame, Frames, Observe, Watch, Nacked;
      while acks < |buf|
        invariant acks <= |buf| && !nacked && Ready() && (old(!scl && sda) || acks > 0 ==> !scl && sda)
        invariant AllAcked(slave, old(clock), acks) && clock == old(clock) + 9 * acks
        invariant bus.events == old(bus.events) + Frames(buf[..acks])
      {
        FramesMore(old(bus.events), buf, acks);
        NackedLater(slave, old(clock), acks);
        nacked := WriteByte(buf[acks]);
        if nacked {
          break;
        }
        AckedMore(slave, old(clock), acks);
        acks := acks + 1;
      }
    }

    method WriteBuffers(bufs: seq<seq<Byte>>) returns (acks: nat)
      requires Ready() && !scl && sda
      modifies this
      ensures Ready() && !scl && sda
      ensures FirstNack(slave, old(clock), |Flat(bufs)|, acks)
      ensures bus.events == old(bus.events) + Frames(Flat(bufs)[..Sent(|Flat(bufs)|, acks)])
    {
      hide Observe, Watch, Frames, Flat, WrittenTo, FirstNack;
      acks := 0;
      var j := 0;
      ghost var c, e := clock, bus.events;
      WriteBegins(slave, c, e, bufs);
      while j < |bufs|
        invariant j <= |bufs| && Ready() && !scl && sda
        invariant WrittenTo(slave, c, e, bufs, j, acks, clock, bus.events)
      {
        ghost var at, events := clock, bus.events;
        var a, nacked := WriteBuffer(bufs[j]);
        BufferWritten(slave, c, e, bufs, j, acks, at, events, a);
        acks := acks + a;
        if nacked {
          return;
        }
        j := j + 1;
      }
      AllWritten(slave, c, e, bufs, acks, clock, bus.events);
    }

    /** The inner loop of a read. */
    method ReadBuffer(buf: array<Byte>, last: bool)
      requires Ready() && !scl && sda
      modifies this, buf
      ensures Ready() && !scl && sda && clock == old(clock) + 9 * buf.Length
      ensures bus.events == old(bus.events) + BufferFrames(buf.Length, last)
      ensures FilledFrom(buf, slave, old(clock))
    {
      var i := 0;
      hide Observe, Watch, SlaveByte, ReadFrame;
      while i < buf.Length
        invariant i <= buf.Length && Ready() && !scl && sda && clock == old(clock) + 9 * i
        invariant bus.events + BufferFrames(buf.Length - i, last) == old(bus.events) + BufferFrames(buf.Length, last)
        invariant forall k | 0 <= k < i :: buf[k] == SlaveByte(slave, old(clock) + 9 * k)
      {
        ghost var events := bus.events;
        var len := buf.Length - i - 1;
        var v := ReadByte(last && len == 0);
        Assoc(events, ReadFrame(last && len == 0), BufferFrames(len, last));
        buf[i] := v;
        i := i + 1;
      }
    }

    method ReadOne(bufs: seq<array<Byte>>, j: nat, ghost c: nat)
      requires j < |bufs| && Ready() && !scl && sda && clock == c + 9 * Before(Lens(bufs), j)
      requires forall i, k | 0 <= i < k < |bufs| :: bufs[i] != bufs[k]
      requires Filled(bufs, j, slave, c)
      modifies this, bufs
      ensures Ready() && !scl && sda && clock == c + 9 * Before(Lens(bufs), j + 1)
      ensures bus.events == old(bus.events) + BufferFrames(Lens(bufs)[j], |bufs| - j == 1)
      ensures Filled(bufs, j + 1, slave, c)
    {
      hide Observe, Watch, BufferFrames, FilledFrom, Before;
      BeforeMore(Lens(bufs), j);
      var n := |bufs| - j - 1;
      ReadBuffer(bufs[j], n == 0);
    }

    /** The reads of a transfer: each buffer is filled from the slave's pulses in turn. */
    method ReadBuffers(bufs: seq<array<Byte>>)
      requires Ready() && !scl && sda
      requires forall i, k | 0 <= i < k < |bufs| :: bufs[i] != bufs[k]
      modifies this, bufs
      ensures Ready() && !scl && sda && bus.events == old(bus.events) + ReadFrames(Lens(bufs))
      ensures Filled(bufs, |bufs|, slave, old(clock))
    {
      var j := 0;
      ghost var lens := Lens(bufs);
      assert lens[0..] == lens;
      NoReadFrames(lens);
      hide Observe, Watch, BufferFrames, ReadFrames, SlaveBytes, Lens;
      while j < |bufs|
        invariant j <= |bufs| && Ready() && !scl && sda && clock == old(clock) + 9 * Before(lens, j)
        invariant bus.events + ReadFrames(lens[j..]) == old(bus.events) + ReadFrames(lens)
        invariant Filled(bufs, j, slave, old(clock))
      {
        ReadFramesMore(bus.events, lens, j);
        ReadOne(bufs, j, old(clock));
        j := j + 1;
      }
    }

    /** The data bytes of a transfer, in either direction. */
    method Exchange(read: bool, bufs: seq<array<Byte>>) returns (acks: nat)
      requires Ready() && !scl && sda
      requires forall i, k | 0 <= i < k < |bufs| :: bufs[i] != bufs[k]
      modifies this, bufs
      ensures Ready() && !scl && sda
      ensures bus.events == old(bus.events) + Body(read, Lens(bufs), Flat(old(Contents(bufs))), acks)
      ensures read ==> acks == 0 && Filled(bufs, |bufs|, slave, old(clock))
      ensures !read ==> FirstNack(slave, old(clock), |Flat(old(Contents(bufs)))|, acks)
      ensures !read ==> Contents(bufs) == old(Contents(bufs))
    {
      hide Observe, Watch, Frames, ReadFrames, Flat, Filled, FirstNack;
      if read {
        ReadBuffers(bufs);
        acks := 0;
      } else {
        acks := WriteBuffers(Contents(bufs));
      }
    }

    /** START and the address byte. */
    method Address(v: Byte) returns (nack: bool)
      requires Valid() && (scl ==> sda)
      modifies this
      ensures Ready() && !scl && sda && bus.events == old(bus.events) + [Start] + Frame(v)
      ensures clock == old(clock) + (if old(scl) then 9 else 10) && nack == slave(clock - 1)
    {
      hide Observe, Watch, Frame;
      Begin();
      nack := WriteByte(v);
    }

    /** mp_machine_soft_i2c_transfer. The first pulse after the address frame is number c: a write
        sends its buffers' bytes until one is not acknowledged, and returns how many were; a read
        fills its buffers. SDA changes while SCL is high only to start and to stop. */
    method Transfer(addr: nat, read: bool, bufs: seq<array<Byte>>, stop: bool) returns (r: Result, ghost c: nat)
      requires Valid() && (scl ==> sda)
      requires forall i, k | 0 <= i < k < |bufs| :: bufs[i] != bufs[k]
      modifies this, bufs
      ensures Valid() && (scl ==> sda)
      ensures c == old(clock) + (if old(scl) then 9 else 10)
      ensures r.ENODEV? <==> slave(c - 1)
      ensures var v := (2 * addr + if read then 1 else 0) % 256;
              bus.events == old(bus.events) +
                if r.ENODEV? then Conversation(v, [], true)
                else Conversation(v, Body(read, Lens(bufs), Flat(old(Contents(bufs))), r.n), stop)
      ensures r.Acks? && read ==> r.n == 0 && Filled(bufs, |bufs|, slave, c)
      ensures r.Acks? && !read ==> FirstNack(slave, c, |Flat(old(Contents(bufs)))|, r.n)
      ensures r.Acks? && read ==> IsRead(old(bus.events), bus.events, Lens(bufs), stop)
      ensures r.ENODEV? || !read ==> Contents(bufs) == old(Contents(bufs))
      ensures ChangesWhileHigh(IDLE.lines, trace)
              == old(ChangesWhileHigh(IDLE.lines, trace)) + if stop || r.ENODEV? then 2 else 1
    {
      ghost var was, e, all := trace, bus.events, Flat(Contents(bufs));
      ghost var v: Byte := (2 * addr + if read then 1 else 0) % 256;
      ghost var body: seq<Event> := [];
      hide Observe, Watch, Frame, Body, Flat, Filled, FirstNack, IsRead, ChangesWhileHigh, Conditions, Conversation, Lens, Contents;
      var nodev := Address((2 * addr + if read then 1 else 0) % 256);
      c := clock;
      if nodev {
        End();
        Joined(e, v, body, true);
        NoConditions();
        OnlyStartAndStop(was, trace, v, body, true);
        return ENODEV, c;
      }
      var acks := Exchange(read, bufs);
      body := Body(read, Lens(bufs), all, acks);
      if stop {
        End();
      }
      Joined(e, v, body, stop);
      BodyHasNone(read, Lens(bufs), all, acks);
      OnlyStartAndStop(was, trace, v, body, stop);
      ReadConversation(e, read, v, Lens(bufs), all, acks, stop);
      r := Acks(acks);
    }
  }

  function Lens(bufs: seq<array<Byte>>): seq<nat> {
    seq(|bufs|, i requires 0 <= i < |bufs| => bufs[i].Length)
  }

  function Contents(bufs: seq<array<Byte>>): seq<seq<Byte>>
    reads bufs
  {
    seq(|bufs|, i reads bufs requires 0 <= i < |bufs| => bufs[i][..])
  }

  function Before(lens: seq<nat>, j: nat): nat
    requires j <= |lens|
  {
    if j == 0 then 0 else Before(lens, j - 1) + lens[j - 1]
  }

  /** The buffer holds what the slave drove from pulse c on. */
  ghost predicate FilledFrom(buf: array<Byte>, slave: nat -> bool, c: nat)
    reads buf
  {
    buf[..] == SlaveBytes(slave, c, buf.Length)
  }

  ghost predicate Filled(bufs: seq<array<Byte>>, j: nat, slave: nat -> bool, c: nat)
    requires j <= |bufs|
    reads bufs
  {
    forall i {:trigger bufs[i]} | 0 <= i < j :: FilledFrom(bufs[i], slave, c + 9 * Before(Lens(bufs), i))
  }

  lemma BeforeMore(lens: seq<nat>, j: nat)
    requires j < |lens|
    ensures Before(lens, j + 1) == Before(lens, j) + lens[j]
  {
  }

  lemma NoReadFrames(lens: seq<nat>)
    ensures ReadFrames(lens[|lens|..]) == []
  {
  }

  lemma ReadFramesMore(e: seq<Event>, lens: seq<nat>, j: nat)
    requires j < |lens|
    ensures e + ReadFrames(lens[j..]) == e + BufferFrames(lens[j], |lens| - j == 1) + ReadFrames(lens[j + 1..])
  {
    hide BufferFrames;
    assert lens[j..][1..] == lens[j + 1..];
    Assoc(e, BufferFrames(lens[j], |lens| - j == 1), ReadFrames(lens[j + 1..]));
  }

  lemma NoFrames()
    ensures Frames([]) == []
  {
  }

  lemma NackedLater(slave: nat -> bool, c: nat, k: nat)
    ensures Nacked(slave, c + 9 * k, 0) == Nacked(slave, c, k)
  {
  }

  lemma AckedMore(slave: nat -> bool, c: nat, k: nat)
    requires AllAcked(slave, c, k)
    ensures AllAcked(slave, c, k + 1) <==> !Nacked(slave, c, k)
  {
  }

  lemma AcksJoin(slave: nat -> bool, c: nat, k: nat, a: nat)
    requires AllAcked(slave, c, k) && AllAcked(slave, c + 9 * k, a)
    ensures AllAcked(slave, c, k + a) && (Nacked(slave, c + 9 * k, a) <==> Nacked(slave, c, k + a))
  {
    forall i | k <= i < k + a ensures !Nacked(slave, c, i) {
      assert !Nacked(slave, c + 9 * k, i - k);
    }
  }

  lemma FramesMore(e: seq<Event>, buf: seq<Byte>, k: nat)
    requires k < |buf|
    ensures e + Frames(buf[..k + 1]) == e + Frames(buf[..k]) + Frame(buf[k])
  {
    hide Frame;
    assert buf[..k + 1][..k] == buf[..k];
  }

  /** What one more buffer adds. */
  lemma BufferSent(e: seq<Event>, bufs: seq<seq<Byte>>, j: nat, n: nat)
    requires j < |bufs| && n <= |bufs[j]|
    ensures var k := |Flat(bufs[..j])| + n;
            k <= |Flat(bufs)|
            && e + Frames(Flat(bufs[..j])) + Frames(bufs[j][..n]) == e + Frames(Flat(bufs)[..k])
            && (n < |bufs[j]| ==> k < |Flat(bufs)|)
            && (n == |bufs[j]| ==> Flat(bufs)[..k] == Flat(bufs[..j + 1]))
  {
    hide Frames;
    var done := Flat(bufs[..j]);
    FlatParts(bufs, j);
    assert Flat(bufs)[..|done| + n] == done + bufs[j][..n];
    FramesConcat(done, bufs[j][..n]);
    Assoc(e, Frames(done), Frames(bufs[j][..n]));
    assert bufs[j][..|bufs[j]|] == bufs[j];
  }

  /** The first j buffers have been written, and all their bytes acknowledged. */
  ghost predicate WrittenTo(slave: nat -> bool, c: nat, e: seq<Event>, bufs: seq<seq<Byte>>, j: nat,
                            acks: nat, clock: nat, events: seq<Event>) {
    && j <= |bufs| && acks == |Flat(bufs[..j])| && AllAcked(slave, c, acks)
    && clock == c + 9 * acks && events == e + Frames(Flat(bufs[..j]))
  }

  lemma WriteBegins(slave: nat -> bool, c: nat, e: seq<Event>, bufs: seq<seq<Byte>>)
    ensures WrittenTo(slave, c, e, bufs, 0, 0, c, e)
  {
    assert bufs[..0] == [];
  }

  /** The next buffer goes out as a whole, or up to a byte that is not acknowledged. */
  lemma BufferWritten(slave: nat -> bool, c: nat, e: seq<Event>, bufs: seq<seq<Byte>>, j: nat,
                      acks: nat, clock: nat, events: seq<Event>, a: nat)
    requires WrittenTo(slave, c, e, bufs, j, acks, clock, events) && j < |bufs|
    requires FirstNack(slave, clock, |bufs[j]|, a)
    ensures var clock', events' := clock + 9 * Sent(|bufs[j]|, a), events + Frames(bufs[j][..Sent(|bufs[j]|, a)]);
            if a == |bufs[j]| then WrittenTo(slave, c, e, bufs, j + 1, acks + a, clock', events')
            else
              && FirstNack(slave, c, |Flat(bufs)|, acks + a)
              && events' == e + Frames(Flat(bufs)[..Sent(|Flat(bufs)|, acks + a)])
  {
    hide Frames, Flat, AllAcked, Nacked;
    BufferSent(e, bufs, j, Sent(|bufs[j]|, a));
    FlatParts(bufs, j);
    AcksJoin(slave, c, acks, a);
    NackedLater(slave, c, acks);
  }

  lemma AllWritten(slave: nat -> bool, c: nat, e: seq<Event>, bufs: seq<seq<Byte>>, acks: nat, clock: nat, events: seq<Event>)
    requires WrittenTo(slave, c, e, bufs, |bufs|, acks, clock, events)
    ensures FirstNack(slave, c, |Flat(bufs)|, acks)
    ensures events == e + Frames(Flat(bufs)[..Sent(|Flat(bufs)|, acks)])
  {
    hide Frames, Flat, AllAcked;
    assert bufs[..|bufs|] == bufs;
    assert Flat(bufs)[..acks] == Flat(bufs);
  }

  // ---------- A transfer changes SDA while SCL is high only to start and to stop ----------

  lemma {:induction false} ConditionsConcat(a: seq<Event>, b: seq<Event>)
    ensures Conditions(a + b) == Conditions(a) + Conditions(b)
    decreases |b|
  {
    if b == [] {
      assert a + b == a;
    } else {
      var l := |b| - 1;
      ConditionsConcat(a, b[..l]);
      assert (a + b)[..|a + b| - 1] == a + b[..l];
    }
  }

  lemma {:induction false} BitsAreNoConditions(bits: seq<bool>)
    ensures Conditions(AsEvents(bits)) == 0
    decreases |bits|
  {
    if bits != [] {
      var l := |bits| - 1;
      BitsAreNoConditions(bits[..l]);
      assert AsEvents(bits)[..l] == AsEvents(bits[..l]);
    }
  }

  lemma FrameHasNone(v: Byte, nack: bool)
    ensures Conditions(Frame(v)) == 0 && Conditions(ReadFrame(nack)) == 0
  {
    var ones := [true, true, true, true, true, true, true, true];
    BitsAreNoConditions(MsbFirst(v, 8));
    BitsAreNoConditions(ones);
    assert AsEvents([true]) == [Bit(true)] && AsEvents([nack]) == [Bit(nack)];
    BitsAreNoConditions([true]);
    BitsAreNoConditions([nack]);
    ConditionsConcat(AsEvents(MsbFirst(v, 8)), [Bit(true)]);
    ConditionsConcat(AsEvents(ones), [Bit(nack)]);
  }

  lemma {:induction false} FramesHaveNone(bytes: seq<Byte>)
    ensures Conditions(Frames(bytes)) == 0
    decreases |bytes|
  {
    hide Frame;
    if bytes == [] {
    } else {
      var l := |bytes| - 1;
      hide Conditions;
      FramesHaveNone(bytes[..l]);
      FrameHasNone(bytes[l], true);
      ConditionsConcat(Frames(bytes[..l]), Frame(bytes[l]));
    }
  }

  lemma {:induction false} BufferFramesHaveNone(len: nat, last: bool)
    ensures Conditions(BufferFrames(len, last)) == 0
    decreases len
  {
    hide ReadFrame;
    if len == 0 {
      NoConditions();
    } else {
      assert BufferFrames(len, last) == ReadFrame(last && len == 1) + BufferFrames(len - 1, last);
      hide Conditions, BufferFrames;
      BufferFramesHaveNone(len - 1, last);
      FrameHasNone(0, last && len == 1);
      ConditionsConcat(ReadFrame(last && len == 1), BufferFrames(len - 1, last));
    }
  }

  lemma {:induction false} ReadFramesHaveNone(lens: seq<nat>)
    ensures Conditions(ReadFrames(lens)) == 0
    decreases |lens|
  {
    hide BufferFrames;
    if lens == [] {
    } else {
      hide Conditions;
      ReadFramesHaveNone(lens[1..]);
      BufferFramesHaveNone(lens[0], |lens| == 1);
      ConditionsConcat(BufferFrames(lens[0], |lens| == 1), ReadFrames(lens[1..]));
    }
  }

  lemma BodyHasNone(read: bool, lens: seq<nat>, bytes: seq<Byte>, acks: nat)
    ensures Conditions(Body(read, lens, bytes, acks)) == 0
  {
    hide Frames, ReadFrames, Conditions;
    if read {
      ReadFramesHaveNone(lens);
    } else {
      FramesHaveNone(bytes[..Sent(|bytes|, acks)]);
    }
  }

  /** When the trace of lines grows by one conversation, SDA changes while SCL is high once more, to
      start, and another time if it stops. */
  lemma OnlyStartAndStop(was: seq<Lines>, trace: seq<Lines>, v: Byte, body: seq<Event>, stop: bool)
    requires Watch(trace).events == Watch(was).events + Conversation(v, body, stop) && Conditions(body) == 0
    ensures ChangesWhileHigh(IDLE.lines, trace) == ChangesWhileHigh(IDLE.lines, was) + if stop then 2 else 1
  {
    hide Watch, ChangesWhileHigh, Frame;
    var last := if stop then [Stop] else [];
    ChangesAreConditions(was);
    ChangesAreConditions(trace);
    FrameHasNone(v, true);
    ConditionsConcat([Start], Frame(v));
    ConditionsConcat([Start] + Frame(v), body);
    ConditionsConcat([Start] + Frame(v) + body, last);
    ConditionsConcat(Watch(was).events, Conversation(v, body, stop));
  }
}
