/** Base64 and hexadecimal text for bytes (modubinascii.c; sections 4 and 8 of RFC 4648). */
module Binascii {
  import Arith
  import opened Basics
  import opened Bytes

  datatype Result = Ok(data: seq<Byte>) | ValueError

  const PAD: Byte := 61        // '='
  const NEWLINE: Byte := 10

  type Sextet = d: int | 0 <= d < 64
  type Digit = d: int | 0 <= d <= 64       // 64 stands for padding

  // ---------- The alphabet ----------

  /** mod_binascii_sextet */
  function ToSextet(ch: Byte): int {
    if 65 <= ch <= 90 then ch - 65
    else if 97 <= ch <= 122 then ch - 97 + 26
    else if 48 <= ch <= 57 then ch - 48 + 52
    else if ch == 43 then 62
    else if ch == 47 then 63
    else -1
  }

  function ToAscii(d: Digit): Byte {
    if d < 26 then d + 65
    else if d < 52 then d + 97 - 26
    else if d < 62 then d + 48 - 52
    else if d == 62 then 43
    else if d == 63 then 47
    else PAD
  }

  /** The decoder's alphabet is the encoder's. */
  lemma AlphabetsMatch(d: Digit, ch: Byte)
    ensures ToSextet(ToAscii(d)) == if d == 64 then -1 else d
    ensures d != 64 ==> ToAscii(d) != PAD
    ensures ToSextet(ch) != -1 ==> 0 <= ToSextet(ch) < 64 && ToAscii(ToSextet(ch)) == ch
  {
  }

  /** Table 1 of RFC 4648: A to Z, a to z, 0 to 9, plus, slash, and the pad. */
  lemma TheAlphabet(d: Digit)
    ensures ToAscii(0) == 'A' as int && ToAscii(26) == 'a' as int && ToAscii(52) == '0' as int
    ensures ToAscii(25) == 'Z' as int && ToAscii(51) == 'z' as int && ToAscii(61) == '9' as int
    ensures NEWLINE == '\n' as int && PAD == '=' as int
    ensures ToAscii(62) == '+' as int && ToAscii(63) == '/' as int && ToAscii(64) == '=' as int
    ensures d < 61 && d != 25 && d != 51 ==> ToAscii(d + 1) == ToAscii(d) + 1
  {
  }

  // ---------- Encoding ----------

  /** A group of three bytes as one number, and its four digits (section 4 of RFC 4648). */
  function Quantum(a: Byte, b: Byte, c: Byte): nat {
    a * 65536 + b * 256 + c
  }

  function DigitsOf(n: nat): (r: seq<Digit>)
    ensures |r| == 4
  {
    [n / 262144 % 64, n / 4096 % 64, n / 64 % 64, n % 64]
  }

  /** The digits of the text: a last group of one or two bytes is filled up with zeros, and the
      digits that hold none of its bits are padding. */
  function Digits(data: seq<Byte>): seq<Digit> {
    if data == [] then []
    else if |data| == 1 then DigitsOf(Quantum(data[0], 0, 0))[..2] + [64, 64]
    else if |data| == 2 then DigitsOf(Quantum(data[0], data[1], 0))[..3] + [64]
    else DigitsOf(Quantum(data[0], data[1], data[2])) + Digits(data[3..])
  }

  lemma {:induction false} DigitsLength(data: seq<Byte>)
    ensures |Digits(data)| == (|data| + 2) / 3 * 4
    decreases |data|
  {
    hide DigitsOf, Quantum;
    if |data| >= 3 {
      DigitsLength(data[3..]);
      assert (|data| + 2) / 3 == (|data[3..]| + 2) / 3 + 1;
    }
  }

  function Ascii(digits: seq<Digit>): (r: seq<Byte>)
    ensures |r| == |digits|
  {
    seq(|digits|, i requires 0 <= i < |digits| => ToAscii(digits[i]))
  }

  function Encoded(data: seq<Byte>, newline: bool): seq<Byte> {
    Ascii(Digits(data)) + if newline then [NEWLINE] else []
  }

  lemma FourDigits(d0: Sextet, d1: Sextet, d2: Sextet, d3: Sextet)
    ensures DigitsOf(d0 * 262144 + d1 * 4096 + d2 * 64 + d3) == [d0, d1, d2, d3]
  {
    var n := d0 * 262144 + d1 * 4096 + d2 * 64 + d3;
    Arith.Unpack(64, d0 * 4096 + d1 * 64 + d2, d3);
    Arith.Unpack(4096, d0 * 64 + d1, d2 * 64 + d3);
    Arith.Unpack(262144, d0, d1 * 4096 + d2 * 64 + d3);
    Arith.Unpack(64, d0 * 64 + d1, d2);
    Arith.Unpack(64, d0, d1);
  }

  lemma Parts(a: Byte, b: Byte, c: Byte)
    ensures Quantum(a, b, c)
            == a / 4 * 262144 + (a % 4 * 16 + b / 16) * 4096 + (b % 16 * 4 + c / 64) * 64 + c % 64
  {
  }

  function Four(d0: Digit, d1: Digit, d2: Digit, d3: Digit): seq<Digit> {
    [d0, d1, d2, d3]
  }

  // The encoder's shifts and masks.
  function First(a: Byte): Sextet { a / 4 }
  function Second(a: Byte, b: Byte): Sextet { a % 4 * 16 + b / 16 }
  function Third(b: Byte, c: Byte): Sextet { b % 16 * 4 + c / 64 }
  function Fourth(c: Byte): Sextet { c % 64 }

  /** They give the group's digits. */
  lemma QuantumDigits(a: Byte, b: Byte, c: Byte)
    ensures DigitsOf(Quantum(a, b, c)) == Four(First(a), Second(a, b), Third(b, c), Fourth(c))
  {
    hide DigitsOf, Quantum;
    Parts(a, b, c);
    FourDigits(First(a), Second(a, b), Third(b, c), Fourth(c));
  }

  function Chars(s: string): seq<Byte>
    requires forall i | 0 <= i < |s| :: s[i] < 128 as char
  {
    seq(|s|, i requires 0 <= i < |s| => s[i] as Byte)
  }

  lemma FoobarDigits()
    ensures Digits([102]) == [25, 32, 64, 64] && Digits([102, 111]) == [25, 38, 60, 64]
    ensures Digits([102, 111, 111]) == [25, 38, 61, 47]
    ensures Digits([102, 111, 111, 98, 97, 114]) == [25, 38, 61, 47, 24, 38, 5, 50]
  {
    QuantumDigits(102, 0, 0);
    QuantumDigits(102, 111, 0);
    QuantumDigits(102, 111, 111);
    QuantumDigits(98, 97, 114);
    hide DigitsOf, Quantum;
    assert [102, 111, 111, 98, 97, 114][3..] == [98, 97, 114];
    assert Digits([98, 97, 114]) == [24, 38, 5, 50] + Digits([]);
  }

  /** Section 10 of RFC 4648. */
  lemma TestVectors()
    ensures Encoded(Chars("f"), false) == Chars("Zg==") && Encoded(Chars("fo"), false) == Chars("Zm8=")
    ensures Encoded(Chars("foo"), false) == Chars("Zm9v") && Encoded(Chars("foobar"), false) == Chars("Zm9vYmFy")
  {
    FoobarDigits();
    hide Digits;
    assert Chars("f") == [102] && Chars("fo") == [102, 111] && Chars("foo") == [102, 111, 111];
    assert Chars("foobar") == [102, 111, 111, 98, 97, 114];
    assert Ascii([25, 32, 64, 64]) == Chars("Zg==") && Ascii([25, 38, 60, 64]) == Chars("Zm8=");
    assert Ascii([25, 38, 61, 47]) == Chars("Zm9v");
    assert Ascii([25, 38, 61, 47, 24, 38, 5, 50]) == Chars("Zm9vYmFy");
    hide Ascii, Chars;
    assert forall s: seq<Byte> :: s + [] == s;
  }

  method Put4(out: array<Byte>, o: nat, d0: Digit, d1: Digit, d2: Digit, d3: Digit)
    requires o + 4 <= out.Length
    modifies out
    ensures out[..o + 4] == old(out[..o]) + Four(d0, d1, d2, d3)
  {
    out[o], out[o + 1], out[o + 2], out[o + 3] := d0, d1, d2, d3;
  }

  /** The first pass of b2a_base64 fills the output with digits. */
  method FillDigits(data: seq<Byte>, out: array<Byte>)
    requires out.Length >= |Digits(data)|
    modifies out
    ensures out[..|Digits(data)|] == Digits(data)
  {
    var k, o := 0, 0;
    var i := |data|;
    assert data[0..] == data;
    hide DigitsOf, Quantum, Digits, First, Second, Third, Fourth;
    while i >= 3
      invariant 0 <= i == |data| - k && k <= |data| && o + |Digits(data[k..])| == |Digits(data)|
      invariant out[..o] + Digits(data[k..]) == Digits(data)
    {
      var a, b, c := data[k], data[k + 1], data[k + 2];
      GroupMore(data, k, out[..o]);
      Put4(out, o, First(a), Second(a, b), Third(b, c), Fourth(c));
      o := o + 4;
      k := k + 3;
      i := i - 3;
    }
    FillLast(data[k..], out, o);
  }

  method FillLast(rest: seq<Byte>, out: array<Byte>, o: nat)
    requires |rest| < 3 && o + |Digits(rest)| <= out.Length
    modifies out
    ensures out[..o + |Digits(rest)|] == old(out[..o]) + Digits(rest)
  {
    hide DigitsOf, Quantum, First, Second, Third, Fourth;
    if |rest| != 0 {
      var a := rest[0];
      if |rest| == 2 {
        var b := rest[1];
        LastTwo(a, b);
        assert rest == [a, b];
        hide Digits;
        Put4(out, o, First(a), Second(a, b), Third(b, 0), 64);
      } else {
        LastOne(a);
        assert rest == [a];
        hide Digits;
        Put4(out, o, First(a), Second(a, 0), 64, 64);
      }
    }
  }

  lemma DigitsFront(data: seq<Byte>)
    requires |data| >= 3
    ensures Digits(data) == Four(First(data[0]), Second(data[0], data[1]), Third(data[1], data[2]), Fourth(data[2])) + Digits(data[3..])
  {
    QuantumDigits(data[0], data[1], data[2]);
    hide DigitsOf, Quantum, First, Second, Third, Fourth, Four;
  }

  lemma GroupMore(data: seq<Byte>, k: nat, done: seq<Byte>)
    requires k + 3 <= |data|
    ensures var a, b, c := data[k], data[k + 1], data[k + 2];
            done + Four(First(a), Second(a, b), Third(b, c), Fourth(c)) + Digits(data[k + 3..]) == done + Digits(data[k..])
            && |Digits(data[k..])| == 4 + |Digits(data[k + 3..])|
  {
    DigitsFront(data[k..]);
    hide First, Second, Third, Fourth, Digits;
    assert data[k..][3..] == data[k + 3..];
  }

  lemma LastOne(a: Byte)
    ensures Digits([a]) == Four(First(a), Second(a, 0), 64, 64)
  {
    QuantumDigits(a, 0, 0);
    hide DigitsOf, Quantum, First, Second, Third, Fourth;
  }

  lemma LastTwo(a: Byte, b: Byte)
    ensures Digits([a, b]) == Four(First(a), Second(a, b), Third(b, 0), 64)
  {
    QuantumDigits(a, b, 0);
    hide DigitsOf, Quantum, First, Second, Third, Fourth;
  }

  lemma GroupsBegun(n: nat)
    ensures (if n != 0 then ((n - 1) / 3 + 1) * 4 else 0) == (n + 2) / 3 * 4
  {
  }

  /** b2a_base64: the digits first, then each of them in place as its character. */
  method B2aBase64(data: seq<Byte>, newline: bool) returns (out: array<Byte>)
    ensures fresh(out) && out[..] == Encoded(data, newline)
  {
    var n := if |data| != 0 then ((|data| - 1) / 3 + 1) * 4 else 0;
    out := new Byte[n + if newline then 1 else 0](_ => 0);
    ghost var digits := Digits(data);
    DigitsLength(data);
    GroupsBegun(|data|);
    assert n == |digits|;
    hide Digits, Ascii;
    FillDigits(data, out);
    DigitsToText(out, n, digits);
    if newline {
      out[n] := NEWLINE;
    }
    assert out[..] == Ascii(digits) + if newline then [NEWLINE] else [];
  }

  /** The second pass. */
  method DigitsToText(out: array<Byte>, n: nat, ghost digits: seq<Digit>)
    requires n == |digits| <= out.Length && out[..n] == digits
    modifies out
    ensures out[..n] == Ascii(digits)
  {
    assert forall k | 0 <= k < n :: out[k] == out[..n][k];
    hide ToAscii;
    var j := 0;
    while j < n
      invariant j <= n
      invariant forall k | 0 <= k < j :: out[k] == ToAscii(digits[k])
      invariant forall k | j <= k < n :: out[k] == digits[k]
    {
      out[j] := ToAscii(out[j]);
      j := j + 1;
    }
  }

  /** The text is four characters for every three bytes begun, and the newline. */
  lemma EncodedLength(data: seq<Byte>, newline: bool)
    ensures |Encoded(data, newline)| == 4 * ((|data| + 2) / 3) + if newline then 1 else 0
  {
    DigitsLength(data);
    hide Digits;
  }

  // ---------- Decoding ----------

  /** 2 to the power k, for the few k that occur. */
  function Power(k: int): (p: nat)
    ensures p > 0
  {
    if k == 0 then 1 else if k == 2 then 4 else if k == 4 then 16 else 64
  }

  /** How many bits of m digits do not make a byte yet. */
  function Left(m: nat): nat {
    if m % 4 == 0 then 0 else if m % 4 == 1 then 6 else if m % 4 == 2 then 4 else 2
  }

  /** The byte that a digit completes, k of its bits being left over. */
  function Completed(last: Sextet, s: Sextet, k: int): Byte {
    ((last as int) * 64 + s) / Power(k) % 256
  }

  /** What digit s adds after the digits q. */
  function Added(q: seq<Sextet>, s: Sextet): seq<Byte> {
    if q == [] || Left(|q|) == 0 then [] else [Completed(q[|q| - 1], s, Left(|q|) - 2)]
  }

  /** The bytes that digits hold, six bits each. */
  function Packed(q: seq<Sextet>): seq<Byte> {
    if q == [] then [] else Packed(q[..|q| - 1]) + Added(q[..|q| - 1], q[|q| - 1])
  }

  /** The decoder's state: the bits in hand, how many of them are not yet in the output, and
      whether a pad came since the last digit. */
  datatype Decoder = Decoder(shift: nat, nbits: nat, hadpad: bool, out: seq<Byte>, stopped: bool)

  /** shift is a 32-bit word. */
  function Shifted(shift: nat, s: nat): nat {
    (shift * 64 + s) % 0x1_0000_0000
  }

  /** One turn of the loop of a2b_base64. */
  function Decode1(d: Decoder, ch: Byte): Decoder {
    if d.stopped then d
    else if ch == PAD && (d.nbits == 2 || (d.nbits == 4 && d.hadpad)) then d.(nbits := 0, stopped := true)
    else
      var d' := if ch == PAD then d.(hadpad := true) else d;
      var sextet := ToSextet(ch);
      if sextet == -1 then d'
      else
        var shift := Shifted(d.shift, sextet);
        if d.nbits + 6 >= 8 then
          Decoder(shift, d.nbits - 2, false, d.out + [shift / Power(d.nbits - 2) % 256], false)
        else
          Decoder(shift, d.nbits + 6, false, d.out, false)
  }

  function DecodeFrom(d: Decoder, text: seq<Byte>): Decoder
    decreases |text|
  {
    if text == [] then d else Decode1(DecodeFrom(d, text[..|text| - 1]), text[|text| - 1])
  }

  const START := Decoder(0, 0, false, [], false)

  function Decoded(text: seq<Byte>): Result {
    var d := DecodeFrom(START, text);
    if d.nbits != 0 then ValueError else Ok(d.out)
  }

  /** a2b_base64 */
  method A2bBase64(data: seq<Byte>) returns (r: Result)
    ensures r == Decoded(data)
  {
    var shift, nbits, hadpad, out := 0, 0, false, [];
    var i := 0;
    hide ToSextet, Power, Decode1;
    while i < |data|
      invariant i <= |data| && DecodeFrom(START, data[..i]) == Decoder(shift, nbits, hadpad, out, false)
    {
      assert data[..i + 1][..i] == data[..i];
      var next := Turn(shift, nbits, hadpad, out, data[i]);
      i := i + 1;
      shift, nbits, hadpad, out := next.shift, next.nbits, next.hadpad, next.out;
      if next.stopped {
        StoppedStays(data, i, |data|);
        break;
      }
    }
    assert data[..|data|] == data;
    r := if nbits != 0 then ValueError else Ok(out);
  }

  method Turn(shift: nat, nbits: nat, hadpad: bool, out: seq<Byte>, ch: Byte) returns (d: Decoder)
    ensures d == Decode1(Decoder(shift, nbits, hadpad, out, false), ch)
  {
    var pad := hadpad;
    if ch == PAD {
      if nbits == 2 || (nbits == 4 && hadpad) {
        return Decoder(shift, 0, hadpad, out, true);
      }
      pad := true;
    }
    var sextet := ToSextet(ch);
    if sextet == -1 {
      return Decoder(shift, nbits, pad, out, false);
    }
    var word := Shifted(shift, sextet);
    if nbits + 6 >= 8 {
      d := Decoder(word, nbits - 2, false, out + [word / Power(nbits - 2) % 256], false);
    } else {
      d := Decoder(word, nbits + 6, false, out, false);
    }
  }

  lemma {:induction false} StoppedStays(text: seq<Byte>, i: nat, n: nat)
    requires i <= n <= |text| && DecodeFrom(START, text[..i]).stopped
    ensures DecodeFrom(START, text[..n]) == DecodeFrom(START, text[..i])
    decreases n
  {
    hide Power, ToSextet;
    if i < n {
      assert text[..n][..n - 1] == text[..n - 1];
      StoppedStays(text, i, n - 1);
    }
  }

  // ---------- What the decoder accepts, and what it gives ----------

  /** The digits of a text; everything else is skipped. */
  function Seen(text: seq<Byte>): seq<Sextet>
    decreases |text|
  {
    if text == [] then []
    else
      var l := |text| - 1;
      if ToSextet(text[l]) == -1 then Seen(text[..l]) else Seen(text[..l]) + [ToSextet(text[l])]
  }

  /** Whether a pad came after the last digit. */
  predicate PadSince(text: seq<Byte>)
    decreases |text|
  {
    if text == [] then false
    else
      var l := |text| - 1;
      text[l] == PAD || (ToSextet(text[l]) == -1 && PadSince(text[..l]))
  }

  /** The pad at i ends the text: the first after three digits of a group, or the second after two. */
  predicate Closes(text: seq<Byte>, i: nat)
    requires i < |text|
  {
    text[i] == PAD &&
    (|Seen(text[..i])| % 4 == 3 || (|Seen(text[..i])| % 4 == 2 && PadSince(text[..i])))
  }

  ghost predicate Open(text: seq<Byte>, n: nat)
    requires n <= |text|
  {
    forall i | 0 <= i < n :: !Closes(text, i)
  }

  /** The decoder's state after a text that no pad has ended. */
  ghost predicate Tracks(d: Decoder, text: seq<Byte>) {
    var q := Seen(text);
    && !d.stopped && d.nbits == Left(|q|) && d.hadpad == PadSince(text) && d.out == Packed(q)
    && (q != [] ==> d.shift % 64 == q[|q| - 1])
  }

  lemma WordMod(shift: nat, s: Sextet)
    ensures Shifted(shift, s) % 64 == s
  {
  }

  lemma Low12(x: nat)
    ensures (x % 0x1_0000_0000) % 4096 == x % 4096
  {
  }

  lemma Drop4(m: nat, v: nat)
    ensures (4096 * m + v) / 16 % 256 == v / 16 % 256
  {
    var q := v / 16;
    Arith.Unpack(16, 256 * m + q, v % 16);
    Arith.Unpack(256, m + q / 256, q % 256);
  }

  lemma Drop2(m: nat, v: nat)
    ensures (4096 * m + v) / 4 % 256 == v / 4 % 256
  {
    var q := v / 4;
    Arith.Unpack(4, 1024 * m + q, v % 4);
    Arith.Unpack(256, 4 * m + q / 256, q % 256);
  }

  lemma Drop0(m: nat, v: nat)
    ensures (4096 * m + v) % 256 == v % 256
  {
    Arith.Unpack(256, 16 * m + v / 256, v % 256);
  }

  lemma LowWord(x: nat, h: nat, v: nat)
    requires x == 4096 * h + v && v < 4096
    ensures var w := x % 0x1_0000_0000; w == 4096 * (w / 4096) + v
  {
    Low12(x);
  }

  lemma ShiftedLeft(shift: nat, last: Sextet, s: Sextet)
    requires shift % 64 == last
    ensures shift * 64 + s == 4096 * (shift / 64) + ((last as int) * 64 + s)
  {
  }

  /** The byte that a new digit completes depends on it and the last one only. */
  lemma NextByte(shift: nat, last: Sextet, s: Sextet, k: nat)
    requires shift % 64 == last && (k == 4 || k == 2 || k == 0)
    ensures Shifted(shift, s) / Power(k) % 256 == Completed(last, s, k)
  {
    var x, v := shift * 64 + s, (last as int) * 64 + s;
    var w := x % 0x1_0000_0000;
    ShiftedLeft(shift, last, s);
    LowWord(x, shift / 64, v);
    DropAny(w, w / 4096, v, k);
  }

  lemma DropAny(w: nat, m: nat, v: nat, k: nat)
    requires w == 4096 * m + v && (k == 4 || k == 2 || k == 0)
    ensures w / Power(k) % 256 == v / Power(k) % 256
  {
    if k == 4 {
      Drop4(m, v);
    } else if k == 2 {
      Drop2(m, v);
    } else {
      Drop0(m, v);
    }
  }

  lemma PackedMore(q: seq<Sextet>, s: Sextet)
    ensures Packed(q + [s]) == Packed(q) + Added(q, s)
  {
    hide Added;
    assert (q + [s])[..|q|] == q;
  }

  lemma LeftMore(m: nat)
    ensures Left(m + 1) == if Left(m) + 6 >= 8 then Left(m) - 2 else Left(m) + 6
    ensures Left(m) == 0 || Left(m) == 2 || Left(m) == 4 || Left(m) == 6
    ensures m == 0 ==> Left(m) == 0
  {
  }

  lemma TracksDigit(d: Decoder, q: seq<Sextet>, s: Sextet, ch: Byte)
    requires ToSextet(ch) == s && ch != PAD && !d.stopped && d.nbits == Left(|q|) && d.out == Packed(q)
    requires q != [] ==> d.shift % 64 == q[|q| - 1]
    ensures var d' := Decode1(d, ch);
            !d'.stopped && d'.nbits == Left(|q| + 1) && !d'.hadpad && d'.out == Packed(q + [s]) && d'.shift % 64 == s
  {
    WordMod(d.shift, s);
    LeftMore(|q|);
    PackedMore(q, s);
    hide Packed, Power, ToSextet, Left, Completed, Shifted;
    if d.nbits != 0 {
      NextByte(d.shift, q[|q| - 1], s, d.nbits - 2);
    }
  }

  lemma {:induction false} StaysOnTrack(text: seq<Byte>, n: nat)
    requires n <= |text| && Open(text, n)
    ensures Tracks(DecodeFrom(START, text[..n]), text[..n])
    decreases n
  {
    if n == 0 {
      NothingPacked();
    } else {
      assert text[..n][..n - 1] == text[..n - 1] && text[..n] == text[..n - 1] + [text[n - 1]];
      hide Tracks, Closes, Decode1;
      StaysOnTrack(text, n - 1);
      ClosesHere(text, n - 1);
      TracksMore(DecodeFrom(START, text[..n - 1]), text[..n - 1], text[n - 1]);
    }
  }

  lemma ClosesHere(text: seq<Byte>, i: nat)
    requires i < |text|
    ensures Closes(text, i) <==> Closes(text[..i] + [text[i]], i)
  {
    hide Seen, PadSince;
    assert (text[..i] + [text[i]])[..i] == text[..i];
  }

  lemma TracksMore(d: Decoder, text: seq<Byte>, ch: Byte)
    requires Tracks(d, text) && !Closes(text + [ch], |text|)
    ensures Tracks(Decode1(d, ch), text + [ch])
  {
    assert (text + [ch])[..|text|] == text;
    assert Seen(text + [ch]) == if ToSextet(ch) == -1 then Seen(text) else Seen(text) + [ToSextet(ch)];
    assert PadSince(text + [ch]) <==> ch == PAD || (ToSextet(ch) == -1 && PadSince(text));
    hide Packed, Power, Seen, PadSince, ToSextet, Shifted;
    AlphabetsMatch(0, PAD);
    if ToSextet(ch) != -1 {
      TracksDigit(d, Seen(text), ToSextet(ch), ch);
    }
  }

  lemma NothingPacked()
    ensures Packed([]) == []
  {
  }

  /** A text with no pad that ends it is accepted if its digits make whole groups. */
  lemma OpenText(text: seq<Byte>)
    requires Open(text, |text|)
    ensures Decoded(text) == if |Seen(text)| % 4 == 0 then Ok(Packed(Seen(text))) else ValueError
  {
    assert text[..|text|] == text;
    StaysOnTrack(text, |text|);
  }

  /** One with such a pad is accepted whatever follows it. */
  lemma ClosedText(text: seq<Byte>, i: nat)
    requires i < |text| && Open(text, i) && Closes(text, i)
    ensures Decoded(text) == Ok(Packed(Seen(text[..i])))
  {
    hide Packed, Power, Seen, PadSince;
    StaysOnTrack(text, i);
    assert text[..i + 1][..i] == text[..i];
    StoppedStays(text, i + 1, |text|);
    assert text[..|text|] == text;
  }

  // ---------- Round trip and padding ----------

  /** The digits of the text that are not padding. */
  function Meant(data: seq<Byte>): seq<Sextet> {
    if data == [] then []
    else if |data| == 1 then [First(data[0]), Second(data[0], 0)]
    else if |data| == 2 then [First(data[0]), Second(data[0], data[1]), Third(data[1], 0)]
    else [First(data[0]), Second(data[0], data[1]), Third(data[1], data[2]), Fourth(data[2])] + Meant(data[3..])
  }

  function Pads(n: nat): (r: seq<Byte>)
    ensures |r| == n
  {
    seq(n, _ => PAD)
  }

  function Padding(n: nat): nat {
    if n % 3 == 0 then 0 else 3 - n % 3
  }

  lemma AsciiConcat(a: seq<Digit>, b: seq<Digit>)
    ensures Ascii(a + b) == Ascii(a) + Ascii(b)
  {
    hide ToAscii;
  }

  lemma {:induction false} MeantLength(data: seq<Byte>)
    ensures |Meant(data)| % 4 == if |data| % 3 == 0 then 0 else 1 + |data| % 3
    decreases |data|
  {
    MeantOneMore(data);
    hide Meant;
    if |data| >= 3 {
      MeantLength(data[3..]);
      OneMoreGroup(|data|, |Meant(data[3..])|);
    }
  }

  lemma MeantOneMore(data: seq<Byte>)
    ensures |data| >= 3 ==> |Meant(data)| == 4 + |Meant(data[3..])|
    ensures |data| < 3 ==> |Meant(data)| == if data == [] then 0 else 1 + |data|
  {
    hide First, Second, Third, Fourth;
  }

  lemma OneMoreGroup(n: nat, m: nat)
    ensures (4 + m) % 4 == m % 4 && (n >= 3 ==> (n - 3) % 3 == n % 3)
  {
  }

  lemma TextOne(a: Byte)
    ensures Ascii(Digits([a])) == Ascii(Meant([a])) + Pads(2)
  {
    LastOne(a);
    hide Digits, First, Second;
  }

  lemma TextTwo(a: Byte, b: Byte)
    ensures Ascii(Digits([a, b])) == Ascii(Meant([a, b])) + Pads(1)
  {
    LastTwo(a, b);
    hide Digits, First, Second, Third;
  }

  /** What b2a_base64 writes: the meant digits, then the padding. */
  lemma {:induction false} AsciiOfDigits(data: seq<Byte>)
    ensures Ascii(Digits(data)) == Ascii(Meant(data)) + Pads(Padding(|data|))
    decreases |data|
  {
    hide Ascii, Meant, Digits, Pads;
    if data == [] {
      NoText();
    } else if |data| == 1 {
      TextOne(data[0]);
      assert data == [data[0]];
    } else if |data| == 2 {
      TextTwo(data[0], data[1]);
      assert data == [data[0], data[1]];
    } else {
      FrontText(data);
      AsciiOfDigits(data[3..]);
      Assoc(Ascii(Meant(data)[..4]), Ascii(Meant(data[3..])), Pads(Padding(|data|)));
    }
  }

  lemma NoText()
    ensures Ascii(Digits([])) == Ascii(Meant([])) + Pads(0)
  {
  }

  lemma FrontText(data: seq<Byte>)
    requires |data| >= 3
    ensures |Meant(data)| == 4 + |Meant(data[3..])|
    ensures Ascii(Digits(data)) == Ascii(Meant(data)[..4]) + Ascii(Digits(data[3..]))
    ensures Ascii(Meant(data)) == Ascii(Meant(data)[..4]) + Ascii(Meant(data[3..]))
  {
    DigitsFront(data);
    hide Ascii, First, Second, Third, Fourth, Digits;
    var four := [First(data[0]), Second(data[0], data[1]), Third(data[1], data[2]), Fourth(data[2])];
    assert Meant(data)[..4] == four;
    AsciiConcat(four, Digits(data[3..]));
    AsciiConcat(four, Meant(data[3..]));
  }

  lemma LeftOfWhole(m: nat, n: nat)
    requires m % 4 == 0
    ensures Left(m + n) == Left(n)
  {
  }

  lemma AddedConcat(a: seq<Sextet>, b: seq<Sextet>, s: Sextet)
    requires |a| % 4 == 0
    ensures Added(a + b, s) == Added(b, s)
  {
    LeftOfWhole(|a|, |b|);
    hide Completed;
    if b == [] {
      assert a + b == a;
    } else {
      hide Left;
      assert (a + b)[|a + b| - 1] == b[|b| - 1];
    }
  }

  lemma {:induction false} PackedConcat(a: seq<Sextet>, b: seq<Sextet>)
    requires |a| % 4 == 0
    ensures Packed(a + b) == Packed(a) + Packed(b)
    decreases |b|
  {
    hide Added, Packed;
    if b == [] {
      assert a + b == a;
      NothingPacked();
    } else {
      var l := |b| - 1;
      PackedConcat(a, b[..l]);
      assert a + b == a + b[..l] + [b[l]] && b == b[..l] + [b[l]];
      PackedMore(a + b[..l], b[l]);
      PackedMore(b[..l], b[l]);
      AddedConcat(a, b[..l], b[l]);
      Assoc(Packed(a), Packed(b[..l]), Added(b[..l], b[l]));
    }
  }

  lemma FirstBack(a: Byte, b: Byte)
    ensures Completed(First(a), Second(a, b), 4) == a
  {
    assert (First(a) as int) * 64 + Second(a, b) == 16 * a + b / 16;
  }

  lemma MiddleBits(a: nat, h: nat, l: nat, c: nat)
    requires a < 4 && h < 16 && l < 16 && c < 4
    ensures ((a * 16 + h) * 64 + (l * 4 + c)) / 4 % 256 == h * 16 + l
  {
    assert ((a * 16 + h) * 64 + (l * 4 + c)) / 4 == 256 * a + h * 16 + l;
  }

  lemma SecondBack(a: Byte, b: Byte, c: Byte)
    ensures Completed(Second(a, b), Third(b, c), 2) == b
  {
    MiddleBits(a % 4, b / 16, b % 16, c / 64);
  }

  lemma ThirdBack(b: Byte, c: Byte)
    ensures Completed(Third(b, c), Fourth(c), 0) == c
  {
    assert (Third(b, c) as int) * 64 + Fourth(c) == 256 * (b % 16) + c;
  }

  lemma PackedOne(d0: Sextet)
    ensures Packed([d0]) == []
  {
    PackedMore([], d0);
  }

  lemma PackedTwo(d0: Sextet, d1: Sextet)
    ensures Packed([d0, d1]) == [Completed(d0, d1, 4)]
  {
    hide Completed;
    PackedOne(d0);
    PackedMore([d0], d1);
    assert [d0] + [d1] == [d0, d1];
  }

  lemma PackedThree(d0: Sextet, d1: Sextet, d2: Sextet)
    ensures Packed([d0, d1, d2]) == [Completed(d0, d1, 4), Completed(d1, d2, 2)]
  {
    hide Completed;
    PackedTwo(d0, d1);
    PackedMore([d0, d1], d2);
    assert [d0, d1] + [d2] == [d0, d1, d2];
  }

  lemma PackedFour(d0: Sextet, d1: Sextet, d2: Sextet, d3: Sextet)
    ensures Packed([d0, d1, d2, d3]) == [Completed(d0, d1, 4), Completed(d1, d2, 2), Completed(d2, d3, 0)]
  {
    hide Completed;
    PackedThree(d0, d1, d2);
    PackedMore([d0, d1, d2], d3);
    assert [d0, d1, d2] + [d3] == [d0, d1, d2, d3];
  }

  lemma {:induction false} PackedMeant(data: seq<Byte>)
    ensures Packed(Meant(data)) == data
    decreases |data|
  {
    hide Packed, Completed, First, Second, Third, Fourth;
    if data == [] {
      NothingPacked();
    } else if |data| == 1 {
      FirstBack(data[0], 0);
      PackedTwo(First(data[0]), Second(data[0], 0));
    } else if |data| == 2 {
      FirstBack(data[0], data[1]);
      SecondBack(data[0], data[1], 0);
      PackedThree(First(data[0]), Second(data[0], data[1]), Third(data[1], 0));
    } else {
      FirstBack(data[0], data[1]);
      SecondBack(data[0], data[1], data[2]);
      ThirdBack(data[1], data[2]);
      PackedFour(First(data[0]), Second(data[0], data[1]), Third(data[1], data[2]), Fourth(data[2]));
      PackedMeant(data[3..]);
      PackedConcat(Meant(data)[..4], Meant(data[3..]));
      assert data == [data[0], data[1], data[2]] + data[3..];
    }
  }

  /** Digits, then pads, then perhaps a newline. */
  function Padded(q: seq<Sextet>, p: nat, newline: bool): (r: seq<Byte>)
    ensures |r| == |q| + p + if newline then 1 else 0
  {
    Ascii(q) + Pads(p) + if newline then [NEWLINE] else []
  }

  lemma {:induction false} SeenOfPadded(q: seq<Sextet>, p: nat, newline: bool, i: nat)
    requires i <= |Padded(q, p, newline)|
    ensures var t := Padded(q, p, newline)[..i];
            Seen(t) == (if i < |q| then q[..i] else q) && (PadSince(t) <==> i > |q| && p > 0)
    decreases i
  {
    if i == 0 {
    } else {
      var text := Padded(q, p, newline);
      SeenOfPadded(q, p, newline, i - 1);
      assert text[..i][..i - 1] == text[..i - 1];
      if i <= |q| {
        AlphabetsMatch(q[i - 1], 0);
        assert text[i - 1] == ToAscii(q[i - 1]);
        hide ToAscii, ToSextet;
        assert q[..i] == q[..i - 1] + [q[i - 1]];
      }
    }
  }

  lemma ClosesPadded(q: seq<Sextet>, p: nat, newline: bool, i: nat)
    requires i < |Padded(q, p, newline)|
    ensures Closes(Padded(q, p, newline), i) <==>
              |q| <= i < |q| + p && (|q| % 4 == 3 || (|q| % 4 == 2 && i > |q|))
  {
    SeenOfPadded(q, p, newline, i);
    hide Seen, PadSince;
    if i < |q| {
      AlphabetsMatch(q[i], 0);
      assert Padded(q, p, newline)[i] == ToAscii(q[i]);
    }
  }

  /** The padding that is accepted: none after whole groups, or any; two pads or more after two
      digits; one or more after three. */
  lemma AcceptedPadding(q: seq<Sextet>, p: nat, newline: bool)
    ensures Decoded(Padded(q, p, newline))
            == if |q| % 4 == 0 || (|q| % 4 == 2 && p >= 2) || (|q| % 4 == 3 && p >= 1) then Ok(Packed(q)) else ValueError
  {
    var text := Padded(q, p, newline);
    forall i | 0 <= i < |text|
      ensures Closes(text, i) <==> |q| <= i < |q| + p && (|q| % 4 == 3 || (|q| % 4 == 2 && i > |q|))
    {
      ClosesPadded(q, p, newline, i);
    }
    hide Padded, Seen, PadSince, Packed, Decoded, Closes;
    if (|q| % 4 == 2 && p >= 2) || (|q| % 4 == 3 && p >= 1) {
      var i := if |q| % 4 == 3 then |q| else |q| + 1;
      ClosedText(text, i);
      SeenOfPadded(q, p, newline, i);
    } else {
      OpenText(text);
      SeenOfPadded(q, p, newline, |text|);
      assert text[..|text|] == text;
    }
  }

  /** One pad too many, and a pad alone, are both accepted. */
  lemma SurplusPads()
    ensures Decoded([65, 65, 61, 61, 61]) == Ok([0]) && Decoded([61]) == Ok([])
  {
    hide Decoded, Packed;
    AcceptedPadding([0, 0], 3, false);
    AcceptedPadding([], 1, false);
    PackedTwo(0, 0);
    assert Padded([0, 0], 3, false) == [65, 65, 61, 61, 61];
    assert Padded([], 1, false) == [61];
    NothingPacked();
  }

  /** Decoding what was encoded gives it back, with or without the newline. */
  lemma RoundTrip(data: seq<Byte>, newline: bool)
    ensures Decoded(Encoded(data, newline)) == Ok(data)
  {
    AsciiOfDigits(data);
    MeantLength(data);
    PackedMeant(data);
    AcceptedPadding(Meant(data), Padding(|data|), newline);
    hide Meant, Decoded, Packed, Digits;
  }

  // ---------- Hexadecimal ----------

  function HexDigit(d: int): Byte
    requires 0 <= d < 16
  {
    if d > 9 then d + 48 + 39 else d + 48
  }

  predicate IsHex(ch: Byte) {
    48 <= ch <= 57 || 65 <= ch <= 70 || 97 <= ch <= 102
  }

  function HexValue(ch: Byte): (d: nat)
    requires IsHex(ch)
    ensures d < 16
  {
    if ch <= 57 then ch - 48 else if ch <= 70 then ch - 55 else ch - 87
  }

  /** 0 to 9 and a to f. */
  lemma HexDigits(d: int)
    ensures HexDigit(0) == '0' as int && HexDigit(9) == '9' as int && HexDigit(10) == 'a' as int && HexDigit(15) == 'f' as int
    ensures 0 <= d < 15 && d != 9 ==> HexDigit(d + 1) == HexDigit(d) + 1
  {
  }

  /** Read in either case. */
  lemma HexIsRead(ch: Byte)
    ensures IsHex(ch) <==>
              '0' as int <= ch <= '9' as int || 'a' as int <= ch <= 'f' as int || 'A' as int <= ch <= 'F' as int
    ensures IsHex(ch) ==> HexDigit(HexValue(ch)) == if 'A' as int <= ch <= 'F' as int then ch + 32 else ch
  {
  }

  /** Byte i stands at 2 * i, or 3 * i with separators: its high digit, its low one, and before every
      byte but the first the separator. */
  lemma {:induction false} HexAt(data: seq<Byte>, sep: Option<Byte>, i: nat)
    requires i < |data|
    ensures var text, at := Hex(data, sep), if sep.Some? then 3 * i else 2 * i;
            && |text| == (if sep.Some? then 3 * |data| - 1 else 2 * |data|)
            && text[at] == HexDigit(data[i] / 16) && text[at + 1] == HexDigit(data[i] % 16)
            && (sep.Some? && i > 0 ==> text[at - 1] == sep.value)
    decreases |data|
  {
    hide HexDigit;
    var l := |data| - 1;
    if l > 0 {
      HexAt(data[..l], sep, if i < l then i else 0);
    }
  }

  /** Two digits for each byte, and the separator between bytes. */
  function Hex(data: seq<Byte>, sep: Option<Byte>): seq<Byte> {
    if data == [] then []
    else
      var l := |data| - 1;
      Hex(data[..l], sep) + (if l > 0 && sep.Some? then [sep.value] else []) + [HexDigit(data[l] / 16), HexDigit(data[l] % 16)]
  }

  method Hexlify(data: seq<Byte>, sep: Option<Byte>) returns (out: seq<Byte>)
    ensures out == Hex(data, sep)
    ensures |out| == if data == [] then 0 else if sep.None? then 2 * |data| else 3 * |data| - 1
  {
    if |data| == 0 {
      return [];
    }
    out := [];
    var k := 0;
    var i := |data|;
    hide HexDigit;
    while i > 0
      invariant 0 <= i <= |data| && k == |data| - i
      invariant out == Hex(data[..k], sep) + if 0 < k < |data| && sep.Some? then [sep.value] else []
      invariant |out| == if sep.None? then 2 * k else if k < |data| then 3 * k else 3 * k - 1
    {
      i := i - 1;
      assert data[..k + 1][..k] == data[..k];
      var d := data[k];
      out := out + [HexDigit(d / 16), HexDigit(d % 16)];
      k := k + 1;
      if sep.Some? && i != 0 {
        out := out + [sep.value];
      }
    }
    assert data[..k] == data;
  }

  /** Two digits of either case make a byte; there must be an even number of characters. */
  function Unhex(text: seq<Byte>): Result
    decreases |text|
  {
    if |text| % 2 != 0 then ValueError
    else if text == [] then Ok([])
    else
      var l := |text| - 2;
      var front := Unhex(text[..l]);
      if front.ValueError? || !IsHex(text[l]) || !IsHex(text[l + 1]) then ValueError
      else Ok(front.data + [HexValue(text[l]) * 16 + HexValue(text[l + 1])])
  }

  method Unhexlify(data: seq<Byte>) returns (r: Result)
    ensures r == Unhex(data)
  {
    if |data| % 2 != 0 {
      OddText(data);
      return ValueError;
    }
    hide UnhexTo, IsHex, HexValue, Unhex;
    var out: seq<Byte> := [];
    var hexByte: Byte := 0;
    var k := 0;
    var i := |data|;
    UnhexBegins(data);
    while i > 0
      invariant 0 <= i <= |data| && k == |data| - i && UnhexTo(data, k, hexByte, out)
    {
      i := i - 1;
      var ch := data[k];
      if !IsHex(ch) {
        NotHex(data, k);
        return ValueError;
      }
      UnhexNext(data, k, hexByte, out);
      hexByte := hexByte + HexValue(ch);
      if i % 2 == 1 {
        hexByte := hexByte * 16;
      } else {
        out := out + [hexByte];
        hexByte := 0;
      }
      k := k + 1;
    }
    UnhexEnds(data, hexByte, out);
    r := Ok(out);
  }

  /** The loop after k characters: with the first of a pair read, or between pairs. */
  ghost predicate UnhexTo(data: seq<Byte>, k: nat, hexByte: Byte, out: seq<Byte>) {
    && k <= |data|
    && (k % 2 == 0 ==> hexByte == 0 && Unhex(data[..k]) == Ok(out))
    && (k % 2 == 1 ==> IsHex(data[k - 1]) && hexByte == HexValue(data[k - 1]) * 16 && Unhex(data[..k - 1]) == Ok(out))
  }

  lemma UnhexBegins(data: seq<Byte>)
    ensures UnhexTo(data, 0, 0, [])
  {
    assert data[..0] == [];
    UnhexNothing();
  }

  lemma UnhexNext(data: seq<Byte>, k: nat, hexByte: Byte, out: seq<Byte>)
    requires k < |data| && UnhexTo(data, k, hexByte, out) && IsHex(data[k])
    ensures k % 2 == 0 ==> hexByte == 0 && UnhexTo(data, k + 1, (hexByte + HexValue(data[k])) * 16, out)
    ensures hexByte + HexValue(data[k]) < 256
    ensures k % 2 == 1 ==> UnhexTo(data, k + 1, 0, out + [hexByte + HexValue(data[k])])
  {
    hide IsHex, HexValue, Unhex;
    if k % 2 == 1 {
      UnhexMore(data[..k - 1], data[k - 1], data[k]);
      assert data[..k + 1] == data[..k - 1] + [data[k - 1], data[k]];
    }
  }

  lemma UnhexEnds(data: seq<Byte>, hexByte: Byte, out: seq<Byte>)
    requires |data| % 2 == 0 && UnhexTo(data, |data|, hexByte, out)
    ensures Unhex(data) == Ok(out)
  {
    assert data[..|data|] == data;
  }

  lemma {:induction false} NotHex(text: seq<Byte>, k: nat)
    requires k < |text| && !IsHex(text[k])
    ensures Unhex(text) == ValueError
    decreases |text|
  {
    if |text| % 2 == 0 && k < |text| - 2 {
      NotHex(text[..|text| - 2], k);
    }
  }

  /** unhexlify accepts just the texts of an even number of hexadecimal digits. */
  lemma {:induction false} UnhexAccepts(text: seq<Byte>)
    ensures Unhex(text).Ok? <==> |text| % 2 == 0 && forall k | 0 <= k < |text| :: IsHex(text[k])
    decreases |text|
  {
    hide IsHex, HexValue;
    if |text| % 2 == 0 && text != [] {
      var l := |text| - 2;
      UnhexAccepts(text[..l]);
      assert forall k | 0 <= k < l :: text[..l][k] == text[k];
    }
  }

  lemma HexBack(b: Byte)
    ensures IsHex(HexDigit(b / 16)) && IsHex(HexDigit(b % 16))
    ensures HexValue(HexDigit(b / 16)) * 16 + HexValue(HexDigit(b % 16)) == b
  {
  }

  lemma UnhexMore(text: seq<Byte>, a: Byte, b: Byte)
    requires IsHex(a) && IsHex(b) && Unhex(text).Ok?
    ensures Unhex(text + [a, b]) == Ok(Unhex(text).data + [HexValue(a) * 16 + HexValue(b)])
  {
    hide IsHex, HexValue;
    assert (text + [a, b])[..|text|] == text;
  }

  /** Without a separator, unhexlify undoes hexlify. */
  lemma {:induction false} HexRoundTrip(data: seq<Byte>)
    ensures Unhex(Hex(data, None)) == Ok(data)
    decreases |data|
  {
    hide HexDigit, HexValue, IsHex, Unhex;
    if data == [] {
      UnhexNothing();
    } else {
      var l := |data| - 1;
      HexRoundTrip(data[..l]);
      HexBack(data[l]);
      UnhexMore(Hex(data[..l], None), HexDigit(data[l] / 16), HexDigit(data[l] % 16));
      assert Hex(data, None) == Hex(data[..l], None) + [HexDigit(data[l] / 16), HexDigit(data[l] % 16)];
      assert data == data[..l] + [data[l]];
    }
  }

  lemma OddText(text: seq<Byte>)
    ensures |text| % 2 != 0 ==> Unhex(text) == ValueError
  {
  }

  lemma UnhexNothing()
    ensures Unhex([]) == Ok([])
  {
  }
}
