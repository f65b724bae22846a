/** AES in counter mode (moducryptolib.c), over any block cipher: section 6.5 of NIST SP 800-38A. */
module AesCtr {
  import Arith
  import opened Basics
  import opened Bytes

  type Block = s: seq<Byte> | |s| == 16 witness [0, 0, 0, 0, 0, 0, 0, 0, 0, 0, 0, 0, 0, 0, 0, 0]

  // ---------- Numbers in bytes, most significant first ----------

  function Pow256(n: nat): (p: nat)
    ensures p > 0
  {
    if n == 0 then 1 else 256 * Pow256(n - 1)
  }

  function Value(s: seq<Byte>): nat {
    if s == [] then 0 else 256 * Value(s[..|s| - 1]) + s[|s| - 1]
  }

  function BigEndian(v: nat, n: nat): (s: seq<Byte>)
    ensures |s| == n
  {
    if n == 0 then [] else BigEndian(v / 256, n - 1) + [v % 256]
  }

  lemma {:induction false} ValueBound(s: seq<Byte>)
    ensures Value(s) < Pow256(|s|)
    decreases |s|
  {
    if s != [] {
      ValueBound(s[..|s| - 1]);
    }
  }

  lemma {:induction false} BigEndianOfValue(s: seq<Byte>)
    ensures BigEndian(Value(s), |s|) == s
    decreases |s|
  {
    if s == [] {
    } else {
      BigEndianOfValue(s[..|s| - 1]);
    }
  }

  lemma {:induction false} ValueOfBigEndian(v: nat, n: nat)
    requires v < Pow256(n)
    ensures Value(BigEndian(v, n)) == v
    decreases n
  {
    if n == 0 {
    } else {
      ValueOfBigEndian(v / 256, n - 1);
      assert BigEndian(v, n)[..n - 1] == BigEndian(v / 256, n - 1);
    }
  }

  // ---------- The counter ----------

  /** The carry loop, read from the last byte up. */
  function Incremented(s: seq<Byte>): (r: seq<Byte>)
    ensures |r| == |s|
  {
    if s == [] then []
    else
      var l := |s| - 1;
      if s[l] == 255 then Incremented(s[..l]) + [0] else s[..l] + [s[l] + 1]
  }

  lemma ModScale(a: nat, p: nat)
    requires p > 0
    ensures (256 * a) % (256 * p) == 256 * (a % p)
  {
    Arith.DivMod(a, p);
    assert 256 * a == a / p * (256 * p) + 256 * (a % p);
    Arith.Unpack(256 * p, a / p, 256 * (a % p));
  }

  lemma SmallMod(a: nat, p: nat)
    requires a < p
    ensures a % p == a
  {
  }

  /** It adds one, modulo 2^(8n). */
  lemma {:induction false} IncrementedAddsOne(s: seq<Byte>)
    ensures Value(Incremented(s)) == (Value(s) + 1) % Pow256(|s|)
    decreases |s|
  {
    if s == [] {
    } else {
      var l := |s| - 1;
      assert Incremented(s)[..l] == if s[l] == 255 then Incremented(s[..l]) else s[..l];
      ValueBound(s);
      if s[l] == 255 {
        IncrementedAddsOne(s[..l]);
        ModScale(Value(s[..l]) + 1, Pow256(l));
      } else {
        ValueBound(s[..l]);
        SmallMod(Value(s) + 1, Pow256(|s|));
      }
    }
  }

  lemma Successor(q: nat, p: nat)
    ensures (q + 1) * p == q * p + p
  {
  }

  lemma ModOfSuccessor(q: nat, r: nat, p: nat)
    requires r < p
    ensures p > 0 && (q * p + r + 1) % p == (r + 1) % p
  {
    if r + 1 < p {
      Arith.Unpack(p, q, r + 1);
      Arith.Unpack(p, 0, r + 1);
    } else {
      Successor(q, p);
      Arith.Unpack(p, q + 1, 0);
      Arith.Unpack(p, 1, 0);
    }
  }

  lemma ModPlusOne(a: nat, p: nat)
    requires p > 0
    ensures (a % p + 1) % p == (a + 1) % p
  {
    Arith.DivMod(a, p);
    ModOfSuccessor(a / p, a % p, p);
  }

  /** The initial counter plus m, as 128 bits. */
  function Counter(iv: Block, m: nat): Block {
    BigEndian((Value(iv) + m) % Pow256(16), 16)
  }

  /** The key stream begins with the encrypted initial block. */
  lemma FirstBlock(setup: Setup, k: nat)
    requires k < 16
    ensures Stream(setup, k) == setup.cipher(setup.iv)[k]
  {
    hide Counter;
    CounterStarts(setup.iv);
  }

  lemma CounterStarts(iv: Block)
    ensures Counter(iv, 0) == iv
  {
    ValueBound(iv);
    SmallMod(Value(iv), Pow256(16));
    BigEndianOfValue(iv);
  }

  /** The counter block counts from its end: the last byte that is not 255 goes up by one, and those
      behind it are cleared. A block of bytes that are all 255 starts again at zero. */
  lemma {:induction false} CountsFromTheEnd(front: seq<Byte>, b: Byte, k: nat)
    requires b < 255
    ensures Incremented(front + [b] + seq(k, _ => 255)) == front + [b + 1] + seq(k, _ => 0)
    ensures Incremented(seq(k, _ => 255)) == seq(k, _ => 0)
    decreases k
  {
    var s, all := front + [b] + seq(k, _ => 255), seq(k, _ => 255);
    if k == 0 {
      assert s == front + [b] && s[..|s| - 1] == front;
    } else {
      CountsFromTheEnd(front, b, k - 1);
      assert s[..|s| - 1] == front + [b] + seq(k - 1, _ => 255);
      assert all[..k - 1] == seq(k - 1, _ => 255);
    }
  }

  /** The carry goes past byte i, or stops there. */
  lemma Carried(s: seq<Byte>, i: nat, tail: seq<Byte>)
    requires i < |s| && Incremented(s) == Incremented(s[..i + 1]) + tail
    ensures s[i] == 255 ==> Incremented(s) == Incremented(s[..i]) + ([0] + tail)
    ensures s[i] != 255 ==> Incremented(s) == s[..i] + ([s[i] + 1] + tail)
  {
    assert s[..i + 1][..i] == s[..i];
    if s[i] == 255 {
      Assoc(Incremented(s[..i]), [0], tail);
    } else {
      Assoc(s[..i], [s[i] + 1], tail);
    }
  }

  lemma CounterSteps(iv: Block, m: nat)
    ensures Incremented(Counter(iv, m)) == Counter(iv, m + 1)
  {
    hide Incremented, Pow256, Value, BigEndian;
    var p, c := Pow256(16), Counter(iv, m);
    ValueOfBigEndian((Value(iv) + m) % p, 16);
    IncrementedAddsOne(c);
    ModPlusOne(Value(iv) + m, p);
    BigEndianOfValue(Incremented(c));
  }

  // ---------- The key stream ----------

  /** The block cipher under the object's key, and the initial counter. */
  datatype Setup = Setup(cipher: Block -> Block, iv: Block)

  /** Byte k of the key stream: byte k mod 16 of the encryption of counter k / 16. */
  function Stream(setup: Setup, k: nat): Byte {
    setup.cipher(Counter(setup.iv, k / 16))[k % 16]
  }

  /** The data, from byte k of the message on, masked with the key stream. */
  function Ctr(setup: Setup, k: nat, data: seq<Byte>): (r: seq<Byte>)
    ensures |r| == |data|
  {
    seq(|data|, i requires 0 <= i < |data| => Xor(data[i], Stream(setup, k + i)))
  }

  lemma CtrAppends(setup: Setup, k: nat, a: seq<Byte>, b: seq<Byte>)
    ensures Ctr(setup, k, a + b) == Ctr(setup, k, a) + Ctr(setup, k + |a|, b)
  {
    hide Stream, Xor;
    var r, r' := Ctr(setup, k, a + b), Ctr(setup, k, a) + Ctr(setup, k + |a|, b);
    forall i | 0 <= i < |r| ensures r[i] == r'[i] {
      if i >= |a| {
        assert k + i == k + |a| + (i - |a|);
      }
    }
  }

  lemma NothingMasked(setup: Setup, k: nat)
    ensures Ctr(setup, k, []) == []
  {
  }

  /** What calls with these chunks give, one after the other. */
  function Chunked(setup: Setup, k: nat, chunks: seq<seq<Byte>>): seq<Byte>
    decreases |chunks|
  {
    if chunks == [] then []
    else Ctr(setup, k, chunks[0]) + Chunked(setup, k + |chunks[0]|, chunks[1..])
  }

  /** How a message is split over calls does not matter. */
  lemma {:induction false} ChunkingDoesNotMatter(setup: Setup, k: nat, chunks: seq<seq<Byte>>)
    ensures Chunked(setup, k, chunks) == Ctr(setup, k, Flat(chunks))
    decreases |chunks|
  {
    hide Ctr;
    if chunks == [] {
      NothingMasked(setup, k);
    } else {
      ChunkingDoesNotMatter(setup, k + |chunks[0]|, chunks[1..]);
      CtrAppends(setup, k, chunks[0], Flat(chunks[1..]));
    }
  }

  /** A second pass from the same place undoes the first. */
  lemma SecondPassInverts(setup: Setup, k: nat, data: seq<Byte>)
    ensures Ctr(setup, k, Ctr(setup, k, data)) == data
  {
    hide Stream, Xor;
    var r := Ctr(setup, k, Ctr(setup, k, data));
    forall i | 0 <= i < |data| ensures r[i] == data[i] {
      XorTwice(data[i], Stream(setup, k + i));
    }
  }

  // ---------- The object ----------

  datatype KeyType = NONE | ENC | DEC

  datatype Result = Done | OutputTooSmall | CantSwitch

  class Aes {
    const setup: Setup
    const counter: array<Byte>
    var encryptedCounter: Block
    var offset: nat
    var keyType: KeyType
    ghost var processed: nat           // bytes so far

    ghost predicate Valid()
      reads this, counter
    {
      && counter.Length == 16 && offset == processed % 16
      && counter[..] == Counter(setup.iv, (processed + 15) / 16)
      && (offset != 0 ==> encryptedCounter == setup.cipher(Counter(setup.iv, processed / 16)))
    }

    constructor (setup: Setup)
      ensures Valid() && processed == 0 && keyType == NONE && this.setup == setup && fresh(counter)
    {
      this.setup := setup;
      var iv := setup.iv;
      counter := new Byte[16](i requires 0 <= i < 16 => iv[i]);
      encryptedCounter := iv;
      offset := 0;
      keyType := NONE;
      processed := 0;
      CounterStarts(iv);
      new;
      assert counter[..] == iv;
    }

    /** The carry loop of aes_process_ctr_impl. */
    method Increment()
      requires counter.Length == 16
      modifies counter
      ensures counter[..] == Incremented(old(counter[..]))
    {
      ghost var s := counter[..];
      var i := 15;
      assert s[..16] == s;
      hide Incremented;
      while i >= 0
        invariant -1 <= i <= 15 && counter[..i + 1] == s[..i + 1]
        invariant Incremented(s) == Incremented(s[..i + 1]) + counter[i + 1..]
      {
        Carried(s, i, counter[i + 1..]);
        counter[i] := if counter[i] == 255 then 0 else counter[i] + 1;
        assert counter[i..] == [counter[i]] + counter[i + 1..];
        if counter[i] != 0 {
          assert counter[..] == s[..i] + counter[i..];
          return;
        }
        i := i - 1;
      }
      assert counter[..] == counter[0..];
    }

    /** The key stream's next byte, in encryptedCounter at the offset. */
    method Refill()
      requires Valid()
      modifies this`encryptedCounter, counter
      ensures counter.Length == 16 && offset == processed % 16 == old(offset)
      ensures counter[..] == Counter(setup.iv, processed / 16 + 1) && encryptedCounter == setup.cipher(Counter(setup.iv, processed / 16))
    {
      ghost var k := processed / 16;
      assert offset == 0 ==> (processed + 15) / 16 == k;
      assert offset != 0 ==> (processed + 15) / 16 == k + 1;
      hide Counter, Incremented;
      if offset == 0 {
        encryptedCounter := setup.cipher(counter[..]);
        CounterSteps(setup.iv, k);
        Increment();
      }
    }

    /** One turn of the loop of aes_process_ctr_impl. */
    method MaskByte(b: Byte) returns (r: Byte)
      requires Valid()
      modifies `encryptedCounter, `offset, `processed, counter
      ensures Valid() && processed == old(processed) + 1
      ensures r == Xor(b, Stream(setup, old(processed)))
    {
      hide Counter, Xor;
      Refill();
      r := Xor(b, encryptedCounter[offset]);
      offset := (offset + 1) % 16;
      processed := processed + 1;
    }

    method ProcessByte(inp: array<Byte>, out: array<Byte>, i: nat)
      requires Valid() && i < inp.Length <= out.Length && inp != counter && out != counter
      modifies this, counter, out
      ensures Valid() && processed == old(processed) + 1 && keyType == old(keyType)
      ensures out[..] == old(out[..])[i := Xor(old(inp[..])[i], Stream(setup, old(processed)))]
      ensures inp[..] == old(inp[..]) || (inp[..] == out[..] && old(inp[..]) == old(out[..]))
    {
      hide Stream, Xor, Valid;
      var masked := MaskByte(inp[i]);
      out[i] := masked;
    }

    /** aes_process_ctr_impl. The output may be the input's own buffer. */
    method ProcessCtr(inp: array<Byte>, out: array<Byte>)
      requires Valid() && inp.Length <= out.Length && inp != counter && out != counter
      modifies this, counter, out
      ensures Valid() && processed == old(processed) + inp.Length && keyType == old(keyType)
      ensures out[..] == Ctr(setup, old(processed), old(inp[..])) + old(out[inp.Length..])
    {
      hide Stream, Xor, Valid, Ctr, Masked;
      var i := 0;
      ghost var data, was, k := inp[..], out[..], processed;
      MaskedNone(setup, k, data, was);
      while i < inp.Length
        invariant i <= inp.Length && Valid() && processed == k + i && keyType == old(keyType)
        invariant Masked(setup, k, data, was, inp[..], out[..], i)
      {
        MaskedMore(setup, k, data, was, inp[..], out[..], i);
        ProcessByte(inp, out, i);
        i := i + 1;
      }
      AllMasked(setup, k, data, was, inp[..], out[..]);
    }

    /** encrypt and decrypt: in this mode both apply the key stream, but an object does one of them. */
    method Process(inp: array<Byte>, out: array<Byte>, encrypt: bool) returns (r: Result)
      requires Valid() && inp != counter && out != counter
      modifies this, counter, out
      ensures Valid()
      ensures r.OutputTooSmall? <==> out.Length < inp.Length
      ensures r.CantSwitch? <==> out.Length >= inp.Length && old(keyType) == if encrypt then DEC else ENC
      ensures !r.Done? ==> out[..] == old(out[..]) && processed == old(processed) && keyType == old(keyType)
      ensures r.Done? ==> processed == old(processed) + inp.Length && keyType == if encrypt then ENC else DEC
      ensures r.Done? ==> out[..] == Ctr(setup, old(processed), old(inp[..])) + old(out[inp.Length..])
    {
      hide Stream, Xor, Ctr;
      if out.Length < inp.Length {
        return OutputTooSmall;
      }
      if keyType == NONE {
        keyType := if encrypt then ENC else DEC;
      } else if (encrypt && keyType == DEC) || (!encrypt && keyType == ENC) {
        return CantSwitch;
      }
      ProcessCtr(inp, out);
      r := Done;
    }
  }

  /** The input and output buffers when i bytes are done. */
  ghost predicate Masked(setup: Setup, k: nat, data: seq<Byte>, was: seq<Byte>,
                         inp: seq<Byte>, out: seq<Byte>, i: nat) {
    && i <= |data| == |inp| <= |was| == |out|
    && (forall j | 0 <= j < i :: out[j] == Xor(data[j], Stream(setup, k + j)))
    && (forall j | i <= j < |out| :: out[j] == was[j])
    && (forall j | i <= j < |inp| :: inp[j] == data[j])
  }

  lemma MaskedNone(setup: Setup, k: nat, data: seq<Byte>, was: seq<Byte>)
    ensures |data| <= |was| ==> Masked(setup, k, data, was, data, was, 0)
  {
  }

  /** The input's later bytes are still there, whether or not it is the output's own buffer. */
  lemma MaskedMore(setup: Setup, k: nat, data: seq<Byte>, was: seq<Byte>,
                   inp: seq<Byte>, out: seq<Byte>, i: nat)
    requires i < |inp| && Masked(setup, k, data, was, inp, out, i)
    ensures var out' := out[i := Xor(inp[i], Stream(setup, k + i))];
            Masked(setup, k, data, was, inp, out', i + 1)
            && (inp == out ==> Masked(setup, k, data, was, out', out', i + 1))
  {
    hide Stream, Xor;
  }

  lemma AllMasked(setup: Setup, k: nat, data: seq<Byte>, was: seq<Byte>, inp: seq<Byte>, out: seq<Byte>)
    requires Masked(setup, k, data, was, inp, out, |data|)
    ensures |was| >= |data| && out == Ctr(setup, k, data) + was[|data|..]
  {
    hide Stream, Xor;
  }
}
