/** JSON texts as RFC 4627 writes them, what they mean, and the proof that the parser returns it. */
module UJsonText {
  import opened Basics
  import opened Bytes
  import opened UJson

  // ---------- Texts: every way of writing a value, whitespace and escapes included ----------

  type Ws = s: seq<Byte> | forall i | 0 <= i < |s| :: IsWs(s[i])

  datatype Char =
    | Plain(b: Byte)                             // a byte of an unescaped character
    | Short(c: Byte)                             // a backslash and one letter or sign
    | Unicode(d1: Byte, d2: Byte, d3: Byte, d4: Byte) // \\u and four hexadecimal digits

  datatype Json =
    | JNull
    | JBool(b: bool)
    | JInt(negative: bool, digits: seq<Byte>)
    | JString(chars: seq<Char>)
    | JArray(openWs: Ws, items: Items)
    | JObject(openWs: Ws, members: Members)

  datatype Items =
    | NoItems
    | Item(value: Json, after: Ws, next: Ws, more: Items)

  datatype Members =
    | NoMembers
    | Member(key: seq<Char>, beforeColon: Ws, afterColon: Ws, value: Json, after: Ws, next: Ws, more: Members)

  predicate IsHex(c: Byte) {
    IsDigit(c) || 'a' as int <= c <= 'f' as int || 'A' as int <= c <= 'F' as int
  }

  predicate CharOk(c: Char) {
    match c
    case Plain(b) => b >= 0x20 && b != '"' as int && b != '\\' as int
    case Short(c) => c == '"' as int || c == '\\' as int || c == '/' as int || c == 'b' as int
                     || c == 'f' as int || c == 'n' as int || c == 'r' as int || c == 't' as int
    case Unicode(d1, d2, d3, d4) => IsHex(d1) && IsHex(d2) && IsHex(d3) && IsHex(d4)
  }

  predicate CharsOk(s: seq<Char>) {
    forall i | 0 <= i < |s| :: CharOk(s[i])
  }

  /** int = zero / ( digit1-9 *DIGIT ) */
  predicate IntOk(digits: seq<Byte>) {
    && digits != [] && (forall i | 0 <= i < |digits| :: IsDigit(digits[i]))
    && (digits[0] == '0' as int ==> |digits| == 1)
  }

  predicate Ok(j: Json) {
    match j
    case JNull => true
    case JBool(_) => true
    case JInt(_, digits) => IntOk(digits)
    case JString(chars) => CharsOk(chars)
    case JArray(_, items) => ItemsOk(items)
    case JObject(_, members) => MembersOk(members)
  }

  predicate ItemsOk(items: Items) {
    items.Item? ==> Ok(items.value) && ItemsOk(items.more)
  }

  predicate MembersOk(members: Members) {
    members.Member? ==> CharsOk(members.key) && Ok(members.value) && MembersOk(members.more)
  }

  function TextOfChar(c: Char): seq<Byte> {
    match c
    case Plain(b) => [b]
    case Short(c) => ['\\' as int, c]
    case Unicode(d1, d2, d3, d4) => ['\\' as int, 'u' as int, d1, d2, d3, d4]
  }

  function TextOfChars(s: seq<Char>): seq<Byte> {
    if s == [] then [] else TextOfChar(s[0]) + TextOfChars(s[1..])
  }

  function Quoted(s: seq<Char>): seq<Byte> {
    ['"' as int] + TextOfChars(s) + ['"' as int]
  }

  function Text(j: Json): seq<Byte> {
    match j
    case JNull => Ascii("null")
    case JBool(true) => Ascii("true")
    case JBool(false) => Ascii("false")
    case JInt(neg, digits) => (if neg then ['-' as int] else []) + digits
    case JString(chars) => Quoted(chars)
    case JArray(ws, items) => ['[' as int] + ws + TextOfItems(items) + [']' as int]
    case JObject(ws, members) => ['{' as int] + ws + TextOfMembers(members) + ['}' as int]
  }

  function TextOfItems(items: Items): seq<Byte> {
    match items
    case NoItems => []
    case Item(value, after, next, more) =>
      Text(value) + after + (if more.NoItems? then [] else [',' as int] + next + TextOfItems(more))
  }

  function TextOfMembers(members: Members): seq<Byte> {
    match members
    case NoMembers => []
    case Member(key, before, afterColon, value, after, next, more) =>
      Quoted(key) + before + [':' as int] + afterColon + Text(value) + after
      + (if more.NoMembers? then [] else [',' as int] + next + TextOfMembers(more))
  }

  // ---------- Meanings ----------

  datatype Tree = TNull | TBool(b: bool) | TInt(n: int) | TStr(s: seq<Byte>) | TList(ts: seq<Tree>) | TDict(m: map<seq<Byte>, Tree>)

  function HexDigit(c: Byte): (d: nat)
    requires IsHex(c)
    ensures d < 16
  {
    if c <= '9' as int then c - '0' as int
    else if c <= 'F' as int then c - 'A' as int + 10
    else c - 'a' as int + 10
  }

  /** The code point a \\u escape names. */
  function CodePoint(c: Char): (n: nat)
    requires c.Unicode? && CharOk(c)
    ensures n < 0x10000
  {
    HexDigit(c.d1) * 4096 + HexDigit(c.d2) * 256 + HexDigit(c.d3) * 16 + HexDigit(c.d4)
  }

  function Meaning(c: Char): seq<Byte>
    requires CharOk(c)
  {
    match c
    case Plain(b) => [b]
    case Short(c) => [
      if c == 'b' as int then 0x08 else if c == 'f' as int then 0x0c else if c == 'n' as int then 0x0a
      else if c == 'r' as int then 0x0d else if c == 't' as int then 0x09 else c]
    case Unicode(_, _, _, _) => Utf8(CodePoint(c))
  }

  function StringOf(s: seq<Char>): seq<Byte>
    requires CharsOk(s)
  {
    if s == [] then [] else Meaning(s[0]) + StringOf(s[1..])
  }

  function Value(j: Json): Tree
    requires Ok(j)
  {
    match j
    case JNull => TNull
    case JBool(b) => TBool(b)
    case JInt(neg, digits) => TInt(if neg then -Decimal(digits) else Decimal(digits))
    case JString(chars) => TStr(StringOf(chars))
    case JArray(_, items) => TList(Values(items))
    case JObject(_, members) => TDict(Entries(members, map[]))
  }

  function Values(items: Items): seq<Tree>
    requires ItemsOk(items)
  {
    match items
    case NoItems => []
    case Item(value, _, _, more) => [Value(value)] + Values(more)
  }

  /** A repeated key keeps its last value. */
  function Entries(members: Members, before: map<seq<Byte>, Tree>): map<seq<Byte>, Tree>
    requires MembersOk(members)
  {
    match members
    case NoMembers => before
    case Member(key, _, _, value, _, _, more) => Entries(more, before[StringOf(key) := Value(value)])
  }

  // ---------- When a value in memory is a tree ----------

  /** v denotes t, using only objects at lo and above. */
  ghost predicate Denotes(heap: seq<Obj>, lo: nat, v: Val, t: Tree)
    decreases t
  {
    match t
    case TNull => v == Nil
    case TBool(b) => v == Bool(b)
    case TInt(n) => v == Int(n)
    case TStr(s) => v == Str(s)
    case TList(ts) =>
      && v.Ref? && lo <= v.addr < |heap| && heap[v.addr].List?
      && |heap[v.addr].items| == |ts|
      && forall i | 0 <= i < |ts| :: Denotes(heap, lo, heap[v.addr].items[i], ts[i])
    case TDict(m) =>
      && v.Ref? && lo <= v.addr < |heap| && heap[v.addr].Dict?
      && (forall k | k in heap[v.addr].entries :: k.Str? && k.s in m)
      && forall s | s in m :: Str(s) in heap[v.addr].entries && Denotes(heap, lo, heap[v.addr].entries[Str(s)], m[s])
  }

  /** Objects below lo do not matter, nor do new ones. */
  lemma {:induction false} DenotesFrame(h: seq<Obj>, lo: nat, h': seq<Obj>, lo': nat, v: Val, t: Tree)
    requires Denotes(h, lo, v, t) && lo' <= lo <= |h| <= |h'|
    requires forall i | lo <= i < |h| :: h'[i] == h[i]
    ensures Denotes(h', lo', v, t)
    decreases t
  {
    match t
    case TNull => case TBool(_) => case TInt(_) => case TStr(_) =>
    case TList(ts) =>
      forall i | 0 <= i < |ts| ensures Denotes(h', lo', h'[v.addr].items[i], ts[i]) {
        DenotesFrame(h, lo, h', lo', h[v.addr].items[i], ts[i]);
      }
    case TDict(m) =>
      forall s | s in m
        ensures Str(s) in h'[v.addr].entries && Denotes(h', lo', h'[v.addr].entries[Str(s)], m[s])
      {
        DenotesFrame(h, lo, h', lo', h[v.addr].entries[Str(s)], m[s]);
      }
  }

  // ---------- The lexer reads what the texts write ----------

  lemma OrLow(n: nat, d: Byte)
    requires d < 16
    ensures AddNibble(n, d) == n * 16 + d
  {
    assert Or(n, 0) == n;
    hide Or;
    OrBit(n * 16, d, n * 8, d / 2, d % 2);
    OrBit(n * 8, d / 2, n * 4, d / 4, d / 2 % 2);
    OrBit(n * 4, d / 4, n * 2, d / 8, d / 4 % 2);
    OrBit(n * 2, d / 8, n, 0, d / 8 % 2);
  }

  lemma OrBit(a: nat, b: nat, a2: nat, b2: nat, bit: nat)
    requires a == 2 * a2 && b == 2 * b2 + bit && bit < 2
    ensures Or(a2, b2) == a2 + b2 ==> Or(a, b) == a + b
  {
  }

  /** The byte arithmetic on a hexadecimal digit of either case gives its value. */
  lemma NibbleOfHex(c: Byte)
    requires IsHex(c)
    ensures Nibble(c) == HexDigit(c)
  {
  }

  lemma HexScan(s: Src, c: Char, rest: seq<Byte>)
    requires c.Unicode? && CharOk(c) && s.Next() == Open([c.d1, c.d2, c.d3, c.d4] + rest)
    ensures ScanHex(s).0.Next() == Open(rest) && ScanHex(s).1 == CodePoint(c)
  {
    hide AddNibble, Nibble, HexDigit, CodePoint;
    var ds := [c.d1, c.d2, c.d3, c.d4];
    assert ds + rest == [c.d1] + ([c.d2] + ([c.d3] + ([c.d4] + rest)));
    NextOf(c.d1, [c.d2] + ([c.d3] + ([c.d4] + rest)));
    NextOf(c.d2, [c.d3] + ([c.d4] + rest));
    NextOf(c.d3, [c.d4] + rest);
    NextOf(c.d4, rest);
    HexSum(c);
  }

  lemma HexSum(c: Char)
    requires c.Unicode? && CharOk(c)
    ensures AddNibble(AddNibble(AddNibble(AddNibble(0, Nibble(c.d1)), Nibble(c.d2)), Nibble(c.d3)), Nibble(c.d4))
         == CodePoint(c)
  {
    NibbleOfHex(c.d1);
    NibbleOfHex(c.d2);
    NibbleOfHex(c.d3);
    NibbleOfHex(c.d4);
    hide HexDigit, Nibble, AddNibble;
    AddNibbles(HexDigit(c.d1), HexDigit(c.d2), HexDigit(c.d3), HexDigit(c.d4));
  }

  lemma AddNibbles(h1: Byte, h2: Byte, h3: Byte, h4: Byte)
    requires h1 < 16 && h2 < 16 && h3 < 16 && h4 < 16
    ensures AddNibble(AddNibble(AddNibble(AddNibble(0, h1), h2), h3), h4) == h1 * 4096 + h2 * 256 + h3 * 16 + h4
  {
    hide AddNibble;
    OrLow(0, h1);
    OrLow(h1, h2);
    OrLow(h1 * 16 + h2, h3);
    OrLow(h1 * 256 + h2 * 16 + h3, h4);
  }

  /** One character of a string. */
  lemma CharScan(c: Char, rest: seq<Byte>, buf: seq<Byte>)
    requires CharOk(c)
    ensures ScanString(Open(TextOfChar(c) + rest), buf) == ScanString(Open(rest), buf + Meaning(c))
  {
    match c
    case Plain(b) =>
      NextOf(b, rest);
    case Short(d) =>
      assert TextOfChar(c) + rest == ['\\' as int] + ([d] + rest);
      NextOf('\\' as int, [d] + rest);
      NextOf(d, rest);
    case Unicode(d1, d2, d3, d4) =>
      var digits := [d1, d2, d3, d4];
      assert TextOfChar(c) + rest == ['\\' as int] + (['u' as int] + (digits + rest));
      NextOf('\\' as int, ['u' as int] + (digits + rest));
      NextOf('u' as int, digits + rest);
      HexScan(Open(['u' as int] + (digits + rest)), c, rest);
  }

  lemma {:induction false} StringScan(s: seq<Char>, rest: seq<Byte>, buf: seq<Byte>)
    requires CharsOk(s)
    ensures var quote := ['"' as int] + rest;
            ScanString(Open(TextOfChars(s) + quote), buf) == (Open(quote), buf + StringOf(s))
    decreases |s|
  {
    var quote := ['"' as int] + rest;
    if s == [] {
      NextOf('"' as int, rest);
      assert TextOfChars(s) + quote == quote;
      assert buf + StringOf(s) == buf;
    } else {
      var tail := TextOfChars(s[1..]) + quote;
      assert TextOfChars(s) + quote == TextOfChar(s[0]) + tail;
      CharScan(s[0], tail, buf);
      StringScan(s[1..], rest, buf + Meaning(s[0]));
      assert buf + Meaning(s[0]) + StringOf(s[1..]) == buf + StringOf(s);
    }
  }

  /** Nothing that follows a number in a text could be taken for a part of it. */
  ghost predicate NumberEnds(rest: seq<Byte>) {
    rest == [] || !InNumber(rest[0])
  }

  lemma {:induction false} DigitsScan(digits: seq<Byte>, rest: seq<Byte>, text: seq<Byte>)
    requires (forall i | 0 <= i < |digits| :: IsDigit(digits[i])) && NumberEnds(rest)
    ensures ScanNumber(Open(digits + rest), text, false) == (Open(rest), text + digits, false)
    decreases |digits|
  {
    if digits == [] {
      assert digits + rest == rest && text + digits == text;
    } else {
      var tail := digits[1..] + rest;
      assert digits + rest == [digits[0]] + tail;
      NextOf(digits[0], tail);
      DigitsScan(digits[1..], rest, text + [digits[0]]);
      assert text + [digits[0]] + digits[1..] == text + digits;
    }
  }

  lemma {:induction false} WordScan(word: seq<Byte>, rest: seq<Byte>)
    ensures ScanWord(Open(word + rest), word) == Some(Open(rest))
    decreases |word|
  {
    if word == [] {
      assert word + rest == rest;
    } else {
      assert word + rest == [word[0]] + (word[1..] + rest);
      NextOf(word[0], word[1..] + rest);
      WordScan(word[1..], rest);
    }
  }

  // ---------- The machine builds what the texts mean ----------

  /** A key is pending only in the open dict. */
  ghost predicate KeyInDict(m: Machine)
    requires Valid(m)
  {
    m.key.Some? ==> m.top.Some? && m.heap[m.top.value.addr].Dict?
  }

  /** n turns of the loop lead from m to m2, and in no state between them is a key pending outside
      the open dict. */
  ghost predicate Turns(m: Machine, m2: Machine, n: nat)
    decreases n
  {
    && Valid(m) && KeyInDict(m)
    && if n == 0 then m == m2
       else !m.src.AtEnd() && Step(m).Running? && Turns(Step(m).m, m2, n - 1)
  }

  ghost predicate Leads(m: Machine, m2: Machine) {
    exists n: nat :: Turns(m, m2, n)
  }

  lemma LeadsNowhere(m: Machine)
    requires Valid(m) && KeyInDict(m)
    ensures Leads(m, m)
  {
    assert Turns(m, m, 0);
  }

  lemma {:induction false} TurnsJoin(m: Machine, m1: Machine, m2: Machine, n: nat, k: nat)
    requires Turns(m, m1, n) && Turns(m1, m2, k)
    ensures Turns(m, m2, n + k)
    decreases n
  {
    hide Step, KeyInDict;
    if n > 0 {
      TurnsJoin(Step(m).m, m1, m2, n - 1, k);
    }
  }

  lemma LeadsOn(m: Machine, m1: Machine, m2: Machine)
    requires Leads(m, m1) && Leads(m1, m2)
    ensures Leads(m, m2)
  {
    hide Turns;
    var n: nat :| Turns(m, m1, n);
    var k: nat :| Turns(m1, m2, k);
    TurnsJoin(m, m1, m2, n, k);
  }

  lemma {:induction false} TurnsRun(m: Machine, m2: Machine, n: nat)
    requires Turns(m, m2, n)
    ensures Valid(m) && Valid(m2) && KeyInDict(m2) && Run(m) == Run(m2)
    decreases n
  {
    hide Step, KeyInDict;
    if n > 0 {
      TurnsRun(Step(m).m, m2, n - 1);
    }
  }

  lemma LeadsRun(m: Machine, m2: Machine)
    requires Leads(m, m2)
    ensures Valid(m) && Valid(m2) && KeyInDict(m2) && Run(m) == Run(m2)
  {
    hide Turns, Run, KeyInDict;
    var n: nat :| Turns(m, m2, n);
    TurnsRun(m, m2, n);
  }

  /** The states on the way are those that the machine goes through. */
  lemma {:induction false} TurnsAre(m: Machine, m2: Machine, n: nat, k: nat)
    requires Turns(m, m2, n) && k <= n
    ensures After(m, k).Some? && KeyInDict(After(m, k).value) && Turns(After(m, k).value, m2, n - k)
    decreases k
  {
    hide Step, KeyInDict;
    if k > 0 {
      TurnsAre(m, m2, n, k - 1);
    }
  }

  lemma SeparatorStep(sep: Byte, tail: seq<Byte>, m: Machine)
    requires Valid(m) && m.src == Open([sep] + tail) && IsSeparator(sep)
    ensures !m.src.AtEnd() && Step(m) == Running(m.(src := Open(tail)))
  {
    NextOf(sep, tail);
  }

  lemma {:induction false} SkipsSeparators(seps: seq<Byte>, rest: seq<Byte>, m: Machine)
    requires Valid(m) && m.src == Open(seps + rest) && KeyInDict(m)
    requires forall i | 0 <= i < |seps| :: IsSeparator(seps[i])
    ensures Leads(m, m.(src := Open(rest)))
    decreases |seps|
  {
    hide Step, Leads, Open, IsSeparator;
    if seps == [] {
      assert seps + rest == rest;
      LeadsNowhere(m);
    } else {
      var tail := seps[1..] + rest;
      assert seps + rest == [seps[0]] + tail;
      SeparatorStep(seps[0], tail, m);
      RunStep(m, m.(src := Open(tail)));
      SkipsSeparators(seps[1..], rest, m.(src := Open(tail)));
      LeadsOn(m, m.(src := Open(tail)), m.(src := Open(rest)));
    }
  }

  /** m2 is m after some values were put in the open container: same place in the nest of
      containers, and no older object but the open one has changed. */
  ghost predicate Grown(m: Machine, m2: Machine) {
    && Valid(m) && Valid(m2) && m.top.Some?
    && m2.stack == m.stack && m2.top == m.top
    && |m.heap| <= |m2.heap|
    && forall i | 0 <= i < |m.heap| && i != m.top.value.addr :: m2.heap[i] == m.heap[i]
  }

  /** v denotes t, was built in new objects only, and has been put in the open container. */
  ghost predicate Took(m: Machine, m2: Machine, v: Val, t: Tree)
    requires Grown(m, m2)
  {
    && (m2.heap[m.top.value.addr], m2.key) == Append(m.heap[m.top.value.addr], m.key, v)
    && Denotes(m2.heap, |m.heap|, v, t)
  }

  /** In a dict that waits for a key only a string may come; in a list no key is pending. */
  ghost predicate MayTake(m: Machine, j: Json)
    requires Valid(m)
  {
    m.top.Some? && if m.heap[m.top.value.addr].List? then m.key.None? else m.key.None? ==> j.JString?
  }

  /** The value of a primitive text. */
  ghost function PrimitiveVal(j: Json): Val
    requires Ok(j) && !j.JArray? && !j.JObject?
  {
    match j
    case JNull => Nil
    case JBool(b) => Bool(b)
    case JInt(neg, digits) => Int(if neg then -Decimal(digits) else Decimal(digits))
    case JString(chars) => Str(StringOf(chars))
  }

  lemma WordStep(first: Byte, word: seq<Byte>, rest: seq<Byte>)
    ensures var s := Open([first] + word + rest);
            s.cur == first && ScanWord(s.Next(), word) == Some(Open(rest))
  {
    assert [first] + word + rest == [first] + (word + rest);
    NextOf(first, word + rest);
    WordScan(word, rest);
  }

  lemma QuotedStep(chars: seq<Char>, rest: seq<Byte>)
    requires CharsOk(chars)
    ensures var s := Open(Quoted(chars) + rest);
            && s.cur == '"' as int
            && var (s', buf) := ScanString(s.Next(), []);
               !s'.AtEnd() && s'.Next() == Open(rest) && buf == StringOf(chars)
  {
    var quote := ['"' as int] + rest;
    hide TextOfChars, StringOf, ScanString, Open;
    assert Quoted(chars) + rest == ['"' as int] + (TextOfChars(chars) + quote);
    NextOf('"' as int, TextOfChars(chars) + quote);
    StringScan(chars, rest, []);
    NextOf('"' as int, rest);
    assert [] + StringOf(chars) == StringOf(chars);
  }

  lemma ParseIntegerOf(neg: bool, digits: seq<Byte>)
    requires IntOk(digits)
    ensures ParseInteger((if neg then ['-' as int] else []) + digits)
         == Some(if neg then -Decimal(digits) else Decimal(digits))
  {
    if neg {
      assert (['-' as int] + digits)[1..] == digits;
    } else {
      assert [] + digits == digits;
    }
  }

  lemma IntegerStep(neg: bool, digits: seq<Byte>, rest: seq<Byte>)
    requires IntOk(digits) && NumberEnds(rest)
    ensures var s := Open((if neg then ['-' as int] else []) + digits + rest);
            && (s.cur == '-' as int || IsDigit(s.cur))
            && ScanNumber(s.Next(), [s.cur], false) == (Open(rest), (if neg then ['-' as int] else []) + digits, false)
  {
    if neg {
      assert ['-' as int] + digits + rest == ['-' as int] + (digits + rest);
      NextOf('-' as int, digits + rest);
      DigitsScan(digits, rest, ['-' as int]);
    } else {
      var tail := digits[1..] + rest;
      assert [] + digits + rest == [digits[0]] + tail;
      NextOf(digits[0], tail);
      DigitsScan(digits[1..], rest, [digits[0]]);
      assert [digits[0]] + digits[1..] == [] + digits;
    }
  }

  lemma StepOnWord(m: Machine, word: seq<Byte>, v: Val)
    requires Valid(m) && !m.src.AtEnd()
    requires || (m.src.cur == 'n' as int && word == Ascii("ull") && v == Nil)
             || (m.src.cur == 't' as int && word == Ascii("rue") && v == Bool(true))
             || (m.src.cur == 'f' as int && word == Ascii("alse") && v == Bool(false))
    ensures Step(m) == Word(m, m.src.Next(), word, v)
  {
    hide Word, Primitive, Enter, Leave, ScanString, ScanNumber, ScanWord, ParseInteger, Ascii;
  }

  lemma StepOnNumber(m: Machine, rest: Src, text: seq<Byte>, n: int)
    requires Valid(m) && !m.src.AtEnd() && (m.src.cur == '-' as int || IsDigit(m.src.cur))
    requires ScanNumber(m.src.Next(), [m.src.cur], false) == (rest, text, false) && ParseInteger(text) == Some(n)
    ensures Step(m) == Primitive(m, rest, Int(n))
  {
    hide Word, Primitive, Enter, Leave, ScanString, ScanNumber, ScanWord, ParseInteger, Ascii;
  }

  lemma StepOnString(m: Machine, rest: Src, text: seq<Byte>)
    requires Valid(m) && !m.src.AtEnd() && m.src.cur == '"' as int
    requires ScanString(m.src.Next(), []) == (rest, text) && !rest.AtEnd()
    ensures Step(m) == Primitive(m, rest.Next(), Str(text))
  {
    hide Word, Primitive, Enter, Leave, ScanString, ScanNumber, ScanWord, ParseInteger, Ascii;
  }

  lemma WordRead(m: Machine, first: Byte, word: seq<Byte>, rest: seq<Byte>, v: Val)
    requires Valid(m) && m.src == Open([first] + word + rest) && first != 0
    ensures m.src.cur == first && !m.src.AtEnd() && Word(m, m.src.Next(), word, v) == Primitive(m, Open(rest), v)
  {
    hide Primitive, ScanWord, Open;
    WordStep(first, word, rest);
  }

  lemma NullStep(rest: seq<Byte>, m: Machine)
    requires Valid(m) && m.src == Open(Ascii("null") + rest)
    ensures !m.src.AtEnd() && Step(m) == Primitive(m, Open(rest), Nil)
  {
    assert Ascii("null") == ['n' as int] + Ascii("ull");
    hide Step, Primitive, Word, Open, Ascii;
    WordRead(m, 'n' as int, Ascii("ull"), rest, Nil);
    StepOnWord(m, Ascii("ull"), Nil);
  }

  lemma TrueStep(rest: seq<Byte>, m: Machine)
    requires Valid(m) && m.src == Open(Ascii("true") + rest)
    ensures !m.src.AtEnd() && Step(m) == Primitive(m, Open(rest), Bool(true))
  {
    assert Ascii("true") == ['t' as int] + Ascii("rue");
    hide Step, Primitive, Word, Open, Ascii;
    WordRead(m, 't' as int, Ascii("rue"), rest, Bool(true));
    StepOnWord(m, Ascii("rue"), Bool(true));
  }

  lemma FalseStep(rest: seq<Byte>, m: Machine)
    requires Valid(m) && m.src == Open(Ascii("false") + rest)
    ensures !m.src.AtEnd() && Step(m) == Primitive(m, Open(rest), Bool(false))
  {
    assert Ascii("false") == ['f' as int] + Ascii("alse");
    hide Step, Primitive, Word, Open, Ascii;
    WordRead(m, 'f' as int, Ascii("alse"), rest, Bool(false));
    StepOnWord(m, Ascii("alse"), Bool(false));
  }

  lemma IntStep(neg: bool, digits: seq<Byte>, rest: seq<Byte>, m: Machine)
    requires IntOk(digits) && NumberEnds(rest)
    requires Valid(m) && m.src == Open((if neg then ['-' as int] else []) + digits + rest)
    ensures !m.src.AtEnd()
    ensures Step(m) == Primitive(m, Open(rest), Int(if neg then -Decimal(digits) else Decimal(digits)))
  {
    hide Step, Primitive, ParseInteger, ScanNumber, Decimal, Open, IntOk, NumberEnds;
    IntegerStep(neg, digits, rest);
    ParseIntegerOf(neg, digits);
    var text := (if neg then ['-' as int] else []) + digits;
    StepOnNumber(m, Open(rest), text, if neg then -Decimal(digits) else Decimal(digits));
  }

  lemma StringStep(chars: seq<Char>, rest: seq<Byte>, m: Machine)
    requires CharsOk(chars) && Valid(m) && m.src == Open(Quoted(chars) + rest)
    ensures !m.src.AtEnd() && Step(m) == Primitive(m, Open(rest), Str(StringOf(chars)))
  {
    hide Step, Primitive, ScanString, StringOf, Quoted, Open;
    QuotedStep(chars, rest);
    StepOnString(m, ScanString(m.src.Next(), []).0, StringOf(chars));
  }

  /** One turn of the loop reads a whole primitive. */
  lemma PrimitiveStep(j: Json, rest: seq<Byte>, m: Machine)
    requires Ok(j) && !j.JArray? && !j.JObject? && NumberEnds(rest)
    requires Valid(m) && m.src == Open(Text(j) + rest)
    ensures !m.src.AtEnd() && Step(m) == Primitive(m, Open(rest), PrimitiveVal(j))
  {
    hide Step, Primitive;
    match j
    case JNull => NullStep(rest, m);
    case JBool(b) => if b { TrueStep(rest, m); } else { FalseStep(rest, m); }
    case JInt(neg, digits) => IntStep(neg, digits, rest, m);
    case JString(chars) => StringStep(chars, rest, m);
  }

  lemma RunStep(m: Machine, m2: Machine)
    requires Valid(m) && !m.src.AtEnd() && Step(m) == Running(m2) && KeyInDict(m) && KeyInDict(m2)
    ensures Leads(m, m2)
  {
    hide Step, KeyInDict;
    assert Turns(m2, m2, 0);
    assert Turns(m, m2, 1);
  }

  lemma OpenStep(m: Machine, bracket: Byte, empty: Obj, rest: seq<Byte>)
    requires Valid(m) && m.src == Open([bracket] + rest)
    requires (bracket == '[' as int && empty == List([])) || (bracket == '{' as int && empty == Dict(map[]))
    ensures !m.src.AtEnd() && Step(m) == Enter(m, Open(rest), empty)
  {
    NextOf(bracket, rest);
    hide Enter;
  }

  lemma CloseStep(m: Machine, bracket: Byte, rest: seq<Byte>)
    requires Valid(m) && m.src == Open([bracket] + rest) && (bracket == ']' as int || bracket == '}' as int)
    ensures !m.src.AtEnd() && Step(m) == Leave(m, Open(rest))
  {
    NextOf(bracket, rest);
    hide Leave;
  }

  /** The text of any value, met inside a container, ends up as one more item (or as the key, or
      as the value of the pending key) that denotes it; the parser is then exactly where it was
      in the nest of containers. */
  lemma {:induction false} Parses(j: Json, rest: seq<Byte>, m: Machine) returns (m2: Machine, v: Val)
    requires Ok(j) && NumberEnds(rest) && Valid(m) && MayTake(m, j)
    requires m.src == Open(Text(j) + rest)
    ensures Grown(m, m2) && m2.src == Open(rest) && Leads(m, m2)
    ensures Took(m, m2, v, Value(j))
    decreases j, 2
  {
    hide Step, Leads;
    if j.JArray? || j.JObject? {
      m2, v := ParsesContainer(j, rest, m);
    } else {
      PrimitiveStep(j, rest, m);
      v := PrimitiveVal(j);
      m2 := Primitive(m, Open(rest), v).m;
      RunStep(m, m2);
    }
  }

  lemma {:induction false} ParsesContainer(j: Json, rest: seq<Byte>, m: Machine) returns (m2: Machine, v: Val)
    requires (j.JArray? || j.JObject?) && Ok(j) && Valid(m) && MayTake(m, j)
    requires m.src == Open(Text(j) + rest)
    ensures Grown(m, m2) && m2.src == Open(rest) && Leads(m, m2)
    ensures Took(m, m2, v, Value(j))
    decreases j, 1
  {
    hide Step, Leads, Text, Value, Denotes, Open, TextOfItems, TextOfMembers, Ok, NumberEnds;
    var open, empty, ws, body, close := Parts(j, rest);
    var inside := body + ([close] + rest);
    OpenStep(m, open, empty, ws + inside);
    var m1 := Enter(m, Open(ws + inside), empty).m;
    RunStep(m, m1);
    SkipsSeparators(ws, inside, m1);
    var m3 := ParsesInside(j, [close] + rest, m1.(src := Open(inside)));
    CloseStep(m3, close, rest);
    m2 := Leave(m3, Open(rest)).m;
    RunStep(m3, m2);
    LeadsOn(m, m1, m1.(src := Open(inside)));
    LeadsOn(m, m1.(src := Open(inside)), m3);
    LeadsOn(m, m3, m2);
    v := Ref(|m.heap|);
  }

  /** The pieces of the text of a container. */
  lemma Parts(j: Json, rest: seq<Byte>) returns (open: Byte, empty: Obj, ws: Ws, body: seq<Byte>, close: Byte)
    requires j.JArray? || j.JObject?
    ensures Text(j) + rest == [open] + (ws + (body + ([close] + rest)))
    ensures forall i | 0 <= i < |ws| :: IsSeparator(ws[i])
    ensures NumberEnds([close] + rest)
    ensures j.JArray? ==> open == '[' as int && empty == List([]) && body == TextOfItems(j.items) && close == ']' as int
    ensures j.JObject? ==> open == '{' as int && empty == Dict(map[]) && body == TextOfMembers(j.members) && close == '}' as int
  {
    if j.JArray? {
      open, empty, ws, body, close := '[' as int, List([]), j.openWs, TextOfItems(j.items), ']' as int;
    } else {
      open, empty, ws, body, close := '{' as int, Dict(map[]), j.openWs, TextOfMembers(j.members), '}' as int;
    }
    assert Text(j) == [open] + ws + body + [close];
    hide Text, TextOfItems, TextOfMembers;
    Assoc([open] + ws + body, [close], rest);
    Assoc([open] + ws, body, [close] + rest);
    Assoc([open], ws, body + ([close] + rest));
  }

  lemma ContainerValue(j: Json)
    requires Ok(j)
    ensures j.JArray? ==> ItemsOk(j.items) && Value(j) == TList(Values(j.items))
    ensures j.JObject? ==> MembersOk(j.members) && Value(j) == TDict(Entries(j.members, map[]))
  {
  }

  /** From just inside the opening bracket to just before the closing one: the new object, the
      last of the heap, comes to denote the container. */
  lemma {:induction false} ParsesInside(j: Json, rest: seq<Byte>, m: Machine) returns (m2: Machine)
    requires (j.JArray? || j.JObject?) && Ok(j) && NumberEnds(rest) && Valid(m) && |m.heap| > 0
    requires m.top == Some(Ref(|m.heap| - 1)) && m.key.None?
    requires m.heap[|m.heap| - 1] == if j.JArray? then List([]) else Dict(map[])
    requires m.src == Open((if j.JArray? then TextOfItems(j.items) else TextOfMembers(j.members)) + rest)
    ensures Grown(m, m2) && m2.src == Open(rest) && Leads(m, m2) && m2.key == m.key
    ensures Denotes(m2.heap, |m.heap| - 1, m.top.value, Value(j))
    decreases j, 0
  {
    hide Step, Leads, Denotes, Holds, Text, Value, Values, Entries, Ok, ItemsOk, MembersOk, Open, NumberEnds;
    hide TextOfItems, TextOfMembers;
    ContainerValue(j);
    if j.JArray? {
      var vs;
      m2, vs := ParsesItems(j.items, rest, m);
      assert [] + vs == vs;
      ListDenotes(m2.heap, |m.heap| - 1, vs, Values(j.items));
    } else {
      HoldsNothing(m.heap, |m.heap|);
      m2 := ParsesMembers(j.members, rest, m, map[], |m.heap|);
      DictDenotes(m2.heap, |m.heap| - 1, m2.heap[|m.heap| - 1].entries, Entries(j.members, map[]));
    }
  }

  lemma ListDenotes(h: seq<Obj>, a: nat, vs: seq<Val>, ts: seq<Tree>)
    requires a < |h| && h[a] == List(vs) && |vs| == |ts|
    requires forall i | 0 <= i < |vs| :: Denotes(h, a + 1, vs[i], ts[i])
    ensures Denotes(h, a, Ref(a), TList(ts))
  {
    forall i | 0 <= i < |vs| ensures Denotes(h, a, vs[i], ts[i]) {
      DenotesFrame(h, a + 1, h, a, vs[i], ts[i]);
    }
  }

  lemma DictDenotes(h: seq<Obj>, a: nat, entries: map<Val, Val>, m: map<seq<Byte>, Tree>)
    requires a < |h| && h[a] == Dict(entries) && Holds(h, a + 1, entries, m)
    ensures Denotes(h, a, Ref(a), TDict(m))
  {
    forall s | s in m ensures Denotes(h, a, entries[Str(s)], m[s]) {
      DenotesFrame(h, a + 1, h, a, entries[Str(s)], m[s]);
    }
  }

  /** What stands between an item and the next, or the closing bracket. */
  function Gap(after: Ws, last: bool, next: Ws): seq<Byte> {
    after + if last then [] else [',' as int] + next
  }

  lemma GapSeparates(after: Ws, last: bool, next: Ws, tail: seq<Byte>)
    requires last ==> NumberEnds(tail)
    ensures NumberEnds(Gap(after, last, next) + tail)
    ensures forall i | 0 <= i < |Gap(after, last, next)| :: IsSeparator(Gap(after, last, next)[i])
  {
    var gap := Gap(after, last, next);
    if gap == [] {
      assert gap + tail == tail;
    }
  }

  lemma ItemText(items: Items, rest: seq<Byte>)
    requires items.Item?
    ensures TextOfItems(items) + rest
         == Text(items.value) + (Gap(items.after, items.more.NoItems?, items.next) + (TextOfItems(items.more) + rest))
  {
    ListText(Text(items.value), items.after, items.more.NoItems?, items.next, TextOfItems(items.more), rest);
  }

  lemma ListText(t: seq<Byte>, after: Ws, last: bool, next: Ws, more: seq<Byte>, rest: seq<Byte>)
    requires last ==> more == []
    ensures t + after + (if last then [] else [',' as int] + next + more) + rest
         == t + (Gap(after, last, next) + (more + rest))
  {
    var comma := if last then [] else [',' as int] + next;
    var tail := if last then [] else [',' as int] + next + more;
    assert tail == comma + more;
    Assoc(t, after, comma + more);
    Assoc(t, after + (comma + more), rest);
    Assoc(after, comma + more, rest);
    Assoc(comma, more, rest);
    Assoc(after, comma, more + rest);
  }

  lemma {:induction false} ParsesItems(items: Items, rest: seq<Byte>, m: Machine) returns (m2: Machine, vs: seq<Val>)
    requires ItemsOk(items) && NumberEnds(rest) && Valid(m)
    requires m.top.Some? && m.heap[m.top.value.addr].List? && m.key.None?
    requires m.src == Open(TextOfItems(items) + rest)
    ensures Grown(m, m2) && m2.src == Open(rest) && Leads(m, m2) && m2.key == m.key
    ensures m2.heap[m.top.value.addr] == List(m.heap[m.top.value.addr].items + vs)
    ensures |vs| == |Values(items)|
    ensures forall i | 0 <= i < |vs| :: Denotes(m2.heap, |m.heap|, vs[i], Values(items)[i])
    decreases items
  {
    hide Step, Leads, Denotes, Text, Value, Gap, Open, NumberEnds;
    match items
    case NoItems =>
      assert TextOfItems(items) + rest == rest;
      m2, vs := m, [];
      LeadsNowhere(m);
      assert m.heap[m.top.value.addr].items + vs == m.heap[m.top.value.addr].items;
    case Item(value, after, next, more) =>
      var gap, tail := Gap(after, more.NoItems?, next), TextOfItems(more) + rest;
      ItemText(items, rest);
      if more.NoItems? {
        assert tail == rest;
      }
      GapSeparates(after, more.NoItems?, next, tail);
      var m1, v := Parses(value, gap + tail, m);
      SkipsSeparators(gap, tail, m1);
      var vs';
      m2, vs' := ParsesItems(more, rest, m1.(src := Open(tail)));
      vs := [v] + vs';
      LeadsOn(m, m1, m1.(src := Open(tail)));
      LeadsOn(m, m1.(src := Open(tail)), m2);
      DenotesFrame(m1.heap, |m.heap|, m2.heap, |m.heap|, v, Value(value));
      forall i | 0 <= i < |vs'| ensures Denotes(m2.heap, |m.heap|, vs'[i], Values(more)[i]) {
        DenotesFrame(m2.heap, |m1.heap|, m2.heap, |m.heap|, vs'[i], Values(more)[i]);
      }
      assert m.heap[m.top.value.addr].items + [v] + vs' == m.heap[m.top.value.addr].items + vs;
  }

  /** The entries of a dict under construction denote the members read so far. */
  ghost predicate Holds(heap: seq<Obj>, lo: nat, entries: map<Val, Val>, m: map<seq<Byte>, Tree>) {
    && (forall k | k in entries :: k.Str? && k.s in m)
    && forall s | s in m :: Str(s) in entries && Denotes(heap, lo, entries[Str(s)], m[s])
  }

  lemma HoldsNothing(h: seq<Obj>, lo: nat)
    ensures Holds(h, lo, map[], map[])
  {
  }

  lemma HoldsOneMore(h: seq<Obj>, lo: nat, h': seq<Obj>, lo': nat, entries: map<Val, Val>, m: map<seq<Byte>, Tree>,
                     s: seq<Byte>, v: Val, t: Tree)
    requires Holds(h, lo, entries, m) && lo <= lo' <= |h| <= |h'| && forall i | lo <= i < |h| :: h'[i] == h[i]
    requires Denotes(h', lo', v, t)
    ensures Holds(h', lo, entries[Str(s) := v], m[s := t])
  {
    DenotesFrame(h', lo', h', lo, v, t);
    forall r | r in m && r != s ensures Denotes(h', lo, entries[Str(r)], m[r]) {
      DenotesFrame(h, lo, h', lo, entries[Str(r)], m[r]);
    }
  }

  function Colon(before: Ws, after: Ws): seq<Byte> {
    before + [':' as int] + after
  }

  lemma ColonSeparates(before: Ws, after: Ws)
    ensures forall i | 0 <= i < |Colon(before, after)| :: IsSeparator(Colon(before, after)[i])
  {
  }

  lemma MemberText(members: Members, rest: seq<Byte>)
    requires members.Member?
    ensures TextOfMembers(members) + rest
         == Quoted(members.key) + (Colon(members.beforeColon, members.afterColon)
            + (Text(members.value) + (Gap(members.after, members.more.NoMembers?, members.next)
            + (TextOfMembers(members.more) + rest))))
  {
    hide Gap, Colon, Text, Quoted;
    var q, c, t := Quoted(members.key), Colon(members.beforeColon, members.afterColon), Text(members.value);
    var tail := if members.more.NoMembers? then [] else [',' as int] + members.next + TextOfMembers(members.more);
    MemberHead(q, members.beforeColon, members.afterColon, t, members.after, tail);
    ListText(t, members.after, members.more.NoMembers?, members.next, TextOfMembers(members.more), rest);
    Assoc(q, c + (t + members.after + tail), rest);
    Assoc(c, t + members.after + tail, rest);
  }

  lemma MemberHead(q: seq<Byte>, before: Ws, afterColon: Ws, t: seq<Byte>, after: seq<Byte>, tail: seq<Byte>)
    ensures q + before + [':' as int] + afterColon + t + after + tail
         == q + (Colon(before, afterColon) + (t + after + tail))
  {
    Assoc(q, before, [':' as int]);
    Assoc(q, before + [':' as int], afterColon);
    Assoc(q, Colon(before, afterColon), t);
    Assoc(q, Colon(before, afterColon) + t, after);
    Assoc(q, Colon(before, afterColon) + t + after, tail);
    Assoc(Colon(before, afterColon), t, after);
    Assoc(Colon(before, afterColon), t + after, tail);
  }

  lemma {:induction false} ParsesMembers(members: Members, rest: seq<Byte>, m: Machine, before: map<seq<Byte>, Tree>, lo: nat)
    returns (m2: Machine)
    requires MembersOk(members) && NumberEnds(rest) && Valid(m) && m.key.None?
    requires m.top.Some? && m.heap[m.top.value.addr].Dict? && m.top.value.addr < lo <= |m.heap|
    requires Holds(m.heap, lo, m.heap[m.top.value.addr].entries, before)
    requires m.src == Open(TextOfMembers(members) + rest)
    ensures Grown(m, m2) && m2.src == Open(rest) && Leads(m, m2) && m2.key.None?
    ensures m2.heap[m.top.value.addr].Dict?
    ensures Holds(m2.heap, lo, m2.heap[m.top.value.addr].entries, Entries(members, before))
    decreases members
  {
    hide Step, Leads, Denotes, Holds, Text, Value, Quoted, StringOf, Gap, Colon, Open, NumberEnds;
    match members
    case NoMembers =>
      assert TextOfMembers(members) + rest == rest;
      m2 := m;
      LeadsNowhere(m);
    case Member(key, beforeColon, afterColon, value, after, next, more) =>
      var a := m.top.value.addr;
      var gap, tail := Gap(after, more.NoMembers?, next), TextOfMembers(more) + rest;
      MemberText(members, rest);
      ColonSeparates(beforeColon, afterColon);
      if more.NoMembers? {
        assert tail == rest;
      }
      GapSeparates(after, more.NoMembers?, next, tail);
      var m1 := ParsesKey(key, Colon(beforeColon, afterColon), Text(value) + (gap + tail), m);
      var m3, v := Parses(value, gap + tail, m1);
      SkipsSeparators(gap, tail, m3);
      HoldsOneMore(m.heap, lo, m3.heap, |m.heap|, m.heap[a].entries, before, StringOf(key), v, Value(value));
      m2 := ParsesMembers(more, rest, m3.(src := Open(tail)), before[StringOf(key) := Value(value)], lo);
      LeadsOn(m, m1, m3);
      LeadsOn(m, m3, m3.(src := Open(tail)));
      LeadsOn(m, m3.(src := Open(tail)), m2);
  }

  /** A key and the colon after it: the key is pending. */
  lemma ParsesKey(key: seq<Char>, colon: seq<Byte>, rest: seq<Byte>, m: Machine) returns (m2: Machine)
    requires CharsOk(key) && Valid(m) && m.key.None? && m.top.Some? && m.heap[m.top.value.addr].Dict?
    requires forall i | 0 <= i < |colon| :: IsSeparator(colon[i])
    requires m.src == Open(Quoted(key) + (colon + rest))
    ensures m2 == m.(src := Open(rest), key := Some(Str(StringOf(key)))) && Valid(m2) && Leads(m, m2)
  {
    hide Step, Leads, Quoted, StringOf, Open;
    StringStep(key, colon + rest, m);
    var m1 := Primitive(m, Open(colon + rest), Str(StringOf(key))).m;
    RunStep(m, m1);
    assert m.heap[m.top.value.addr := m.heap[m.top.value.addr]] == m.heap;
    SkipsSeparators(colon, rest, m1);
    m2 := m1.(src := Open(rest));
    LeadsOn(m, m1, m2);
  }

  // ---------- The theorem ----------

  lemma {:induction false} FinishSkips(ws: Ws, m: Machine)
    requires m.src == Open(ws)
    ensures SkipSpace(m.src).AtEnd()
    decreases |ws|
  {
    if ws != [] {
      assert ws == [ws[0]] + ws[1..];
      NextOf(ws[0], ws[1..]);
      FinishSkips(ws[1..], m.(src := Open(ws[1..])));
    }
  }

  /** Loading a JSON text, with whitespace around it, returns a value that denotes what the text
      means; it is built from new objects, and the objects that existed are left alone. */
  lemma LoadReturnsTheTree(before: Ws, j: Json, after: Ws, heap: seq<Obj>) returns (v: Val, heap': seq<Obj>)
    requires Ok(j)
    ensures Load(before + Text(j) + after, heap) == Loaded(v, heap')
    ensures Denotes(heap', |heap|, v, Value(j))
    ensures |heap| <= |heap'| && heap'[..|heap|] == heap
  {
    var last, end;
    last, end, v, heap' := LastTurn(before, j, after, heap);
    LeadsRun(Initial(before + Text(j) + after, heap), last);
    RunFinish(last, end);
  }

  /** In the whole run on a JSON text, a key is pending only in the open dict. */
  lemma KeyPendsInTheOpenDict(before: Ws, j: Json, after: Ws, heap: seq<Obj>, n: nat)
    requires Ok(j) && After(Initial(before + Text(j) + after, heap), n).Some?
    ensures KeyInDict(After(Initial(before + Text(j) + after, heap), n).value)
  {
    var m0 := Initial(before + Text(j) + after, heap);
    var last, end, _, _ := LastTurn(before, j, after, heap);
    hide Step, KeyInDict, Turns, Initial;
    var k: nat :| Turns(m0, last, k);
    if n <= k {
      TurnsAre(m0, last, k, n);
    } else {
      TurnsAre(m0, last, k, k);
      TurnsEnd(last, After(m0, k).value);
      StoppedStays(m0, k, n);
    }
  }

  lemma TurnsEnd(last: Machine, m: Machine)
    requires Turns(m, last, 0)
    ensures m == last
  {
  }

  /** A run that has finished has no further states. */
  lemma {:induction false} StoppedStays(m: Machine, k: nat, n: nat)
    requires Valid(m) && After(m, k).Some? && !After(m, k).value.src.AtEnd() && Step(After(m, k).value).Finished? && k < n
    ensures After(m, n).None?
    decreases n
  {
    hide Step;
    if k + 1 < n {
      StoppedStays(m, k, n - 1);
    }
  }

  /** The run on a JSON text goes to a state whose turn is the last. */
  lemma LastTurn(before: Ws, j: Json, after: Ws, heap: seq<Obj>)
    returns (last: Machine, end: Machine, v: Val, heap': seq<Obj>)
    requires Ok(j)
    ensures Leads(Initial(before + Text(j) + after, heap), last)
    ensures Valid(last) && !last.src.AtEnd() && Step(last) == Finished(end)
    ensures Finish(end) == Loaded(v, heap')
    ensures Denotes(heap', |heap|, v, Value(j))
    ensures |heap| <= |heap'| && heap'[..|heap|] == heap
  {
    hide Step, Leads, Text, Value, Open, NumberEnds, SkipSpace, Denotes;
    WsEndsNumbers(after);
    last, end := ValueEnds(before, j, after, heap);
    FinishSkips(after, end);
    v, heap' := end.top.value, end.heap;
  }

  /** Whatever follows the text, which cannot be taken for a part of a number: the last turn leaves
      the stream on it, and the value on top. */
  lemma ValueEnds(before: Ws, j: Json, rest: seq<Byte>, heap: seq<Obj>) returns (last: Machine, end: Machine)
    requires Ok(j) && NumberEnds(rest)
    ensures Leads(Initial(before + Text(j) + rest, heap), last)
    ensures Valid(last) && !last.src.AtEnd() && Step(last) == Finished(end)
    ensures end.src == Open(rest) && end.top.Some? && end.stack == []
    ensures Denotes(end.heap, |heap|, end.top.value, Value(j))
    ensures |heap| <= |end.heap| && end.heap[..|heap|] == heap
  {
    hide Step, Leads, Text, Value, Open, NumberEnds, SkipSpace;
    var text := Text(j) + rest;
    var m0 := Initial(before + text, heap);
    Assoc(before, Text(j), rest);
    SkipsSeparators(before, text, m0);
    var m := m0.(src := Open(text));
    if j.JArray? || j.JObject? {
      last, end := ContainerEnds(j, rest, m);
      LeadsOn(m0, m, last);
    } else {
      PrimitiveStep(j, rest, m);
      PrimitiveDenotes(j, heap);
      last, end := m, m.(src := Open(rest), top := Some(PrimitiveVal(j)));
    }
  }

  /** Only white space may follow. */
  lemma NothingMayFollow(before: Ws, j: Json, after: Ws, b: Byte, more: seq<Byte>, heap: seq<Obj>)
    requires Ok(j) && b != 0 && !IsSpace(b) && NumberEnds(after + [b])
    ensures Load(before + Text(j) + (after + [b] + more), heap) == SyntaxError
  {
    var rest := after + [b] + more;
    assert rest == after + ([b] + more) && (after != [] ==> rest[0] == after[0]);
    assert NumberEnds(rest);
    SkipsTo(after, b, more);
    hide Step, Leads, Text, Value, Open, NumberEnds, SkipSpace, Denotes;
    var last, end := ValueEnds(before, j, rest, heap);
    LeadsRun(Initial(before + Text(j) + rest, heap), last);
    RunFinish(last, end);
  }

  lemma {:induction false} SkipsTo(ws: Ws, b: Byte, more: seq<Byte>)
    requires b != 0 && !IsSpace(b)
    ensures !SkipSpace(Open(ws + [b] + more)).AtEnd()
    decreases |ws|
  {
    if ws == [] {
      assert [] + [b] + more == [b] + more;
      NextOf(b, more);
    } else {
      assert ws + [b] + more == [ws[0]] + (ws[1..] + [b] + more);
      NextOf(ws[0], ws[1..] + [b] + more);
      SkipsTo(ws[1..], b, more);
    }
  }

  lemma WsEndsNumbers(ws: Ws)
    ensures NumberEnds(ws)
  {
  }

  lemma PrimitiveDenotes(j: Json, heap: seq<Obj>)
    requires Ok(j) && !j.JArray? && !j.JObject?
    ensures Denotes(heap, |heap|, PrimitiveVal(j), Value(j))
  {
  }

  lemma RunFinish(m: Machine, last: Machine)
    requires Valid(m) && !m.src.AtEnd() && Step(m) == Finished(last)
    ensures Run(m) == Finish(last)
  {
  }

  lemma ContainerEnds(j: Json, rest: seq<Byte>, m: Machine) returns (last: Machine, end: Machine)
    requires (j.JArray? || j.JObject?) && Ok(j)
    requires m == Machine(Open(Text(j) + rest), m.heap, [], None, None)
    ensures Leads(m, last)
    ensures Valid(last) && !last.src.AtEnd() && Step(last) == Finished(end)
    ensures end.src == Open(rest) && end.top == Some(Ref(|m.heap|)) && end.stack == []
    ensures Denotes(end.heap, |m.heap|, Ref(|m.heap|), Value(j))
    ensures |m.heap| <= |end.heap| && end.heap[..|m.heap|] == m.heap
  {
    hide Step, Leads, Text, Value, Denotes, Open, TextOfItems, TextOfMembers, Ok, NumberEnds, SkipSpace;
    var open, empty, ws, body, close := Parts(j, rest);
    var inside := body + ([close] + rest);
    OpenStep(m, open, empty, ws + inside);
    var m1 := Enter(m, Open(ws + inside), empty).m;
    RunStep(m, m1);
    SkipsSeparators(ws, inside, m1);
    last := ParsesInside(j, [close] + rest, m1.(src := Open(inside)));
    LeadsOn(m, m1, m1.(src := Open(inside)));
    LeadsOn(m, m1.(src := Open(inside)), last);
    CloseStep(last, close, rest);
    end := last.(src := Open(rest));
  }

  // ---------- Integers ----------

  /** A number in decimal, as it is usually written. */
  function Decimals(n: nat): seq<Byte> {
    (if n < 10 then [] else Decimals(n / 10)) + ['0' as int + n % 10]
  }

  function IntText(n: int): seq<Byte> {
    if n < 0 then ['-' as int] + Decimals(-n) else Decimals(n)
  }

  lemma {:induction false} DecimalsAreDigits(n: nat)
    ensures IntOk(Decimals(n)) && Decimal(Decimals(n)) == n
    ensures n > 0 ==> Decimals(n)[0] != '0' as int
    decreases n
  {
    if n >= 10 {
      DecimalsAreDigits(n / 10);
      var s := Decimals(n / 10);
      hide Decimals;
      assert (s + ['0' as int + n % 10])[..|s|] == s;
    } else {
      assert Decimals(n) == ['0' as int + n];
      assert Decimal([]) == 0;
    }
  }

  /** Loading an integer, written in decimal, gives that integer. */
  lemma LoadsIntegers(before: Ws, n: int, after: Ws, heap: seq<Obj>) returns (heap': seq<Obj>)
    ensures Load(before + IntText(n) + after, heap) == Loaded(Int(n), heap')
  {
    hide Load, Decimal, Decimals, IntOk;
    var m: nat := if n < 0 then -n else n;
    DecimalsAreDigits(m);
    var j := JInt(n < 0, Decimals(m));
    assert [] + Decimals(m) == Decimals(m);
    assert Text(j) == IntText(n);
    var v;
    v, heap' := LoadReturnsTheTree(before, j, after, heap);
  }

  /** And every digit string of the grammar is so written. */
  lemma {:induction false} DigitsAreDecimals(digits: seq<Byte>)
    requires IntOk(digits)
    ensures Decimal(digits) >= 0 && Decimals(Decimal(digits)) == digits
    ensures digits[0] != '0' as int ==> Decimal(digits) > 0
    decreases |digits|
  {
    hide Decimal, Decimals, IntOk;
    DecimalParts(digits);
    var l := |digits| - 1;
    if l == 0 {
      OneDigit(digits[0]);
      assert digits == [digits[0]];
    } else {
      FrontOk(digits);
      DigitsAreDecimals(digits[..l]);
      DecimalsMore(Decimal(digits[..l]), digits[l]);
      assert digits[..l] + [digits[l]] == digits;
    }
  }

  lemma DecimalParts(digits: seq<Byte>)
    requires IntOk(digits)
    ensures digits != []
    ensures var l := |digits| - 1; IsDigit(digits[l]) && Decimal(digits) == Decimal(digits[..l]) * 10 + (digits[l] - '0' as int)
    ensures |digits| == 1 ==> Decimal(digits) == digits[0] - '0' as int
  {
    assert Decimal([]) == 0;
  }

  lemma FrontOk(digits: seq<Byte>)
    requires IntOk(digits) && |digits| > 1
    ensures IntOk(digits[..|digits| - 1]) && digits[..|digits| - 1][0] == digits[0] != '0' as int
  {
  }

  lemma OneDigit(digit: Byte)
    requires IsDigit(digit)
    ensures Decimals(digit - '0' as int) == [digit]
  {
    var n := digit - '0' as int;
    assert n % 10 == n && Decimals(n) == [] + ['0' as int + n % 10];
  }

  lemma DecimalsMore(n: nat, digit: Byte)
    requires n > 0 && IsDigit(digit)
    ensures Decimals(n * 10 + (digit - '0' as int)) == Decimals(n) + [digit]
  {
    var m := n * 10 + (digit - '0' as int);
    assert m >= 10 && m / 10 == n && m % 10 == digit - '0' as int;
    assert Decimals(m) == Decimals(m / 10) + ['0' as int + m % 10];
  }

  /** The escapes of one letter or sign (section 2.5 of RFC 4627): backspace, form feed, line feed,
      carriage return and tab, or the sign itself. */
  lemma ShortEscapes()
    ensures Escape('b' as int) == 0x08 == Meaning(Short('b' as int))[0] && Escape('f' as int) == 0x0c == Meaning(Short('f' as int))[0]
    ensures Escape('n' as int) == 0x0a == Meaning(Short('n' as int))[0] && Escape('r' as int) == 0x0d == Meaning(Short('r' as int))[0]
    ensures Escape('t' as int) == 0x09 == Meaning(Short('t' as int))[0]
    ensures forall c: Byte | CharOk(Short(c)) && (c == '"' as int || c == '\\' as int || c == '/' as int) ::
              Escape(c) == c && Meaning(Short(c)) == [c]
  {
  }

  // ---------- Floats ----------

  predicate HasFloat(text: seq<Byte>) {
    exists i | 0 <= i < |text| :: InFloat(text[i])
  }

  lemma {:induction false} NumberScan(s: seq<Byte>, rest: seq<Byte>, text: seq<Byte>, flt: bool)
    requires (forall i | 0 <= i < |s| :: InNumber(s[i])) && NumberEnds(rest)
    ensures ScanNumber(Open(s + rest), text, flt) == (Open(rest), text + s, flt || HasFloat(s))
    decreases |s|
  {
    if s == [] {
      assert s + rest == rest && text + s == text;
    } else {
      assert s + rest == [s[0]] + (s[1..] + rest);
      NextOf(s[0], s[1..] + rest);
      NumberScan(s[1..], rest, text + [s[0]], flt || InFloat(s[0]));
      assert text + [s[0]] + s[1..] == text + s;
      assert HasFloat(s) <==> InFloat(s[0]) || HasFloat(s[1..]) by {
        assert forall i | 0 < i < |s| :: s[i] == s[1..][i - 1];
      }
    }
  }

  lemma StepOnFloat(m: Machine, rest: Src, text: seq<Byte>)
    requires Valid(m) && !m.src.AtEnd() && (m.src.cur == '-' as int || IsDigit(m.src.cur))
    requires ScanNumber(m.src.Next(), [m.src.cur], false) == (rest, text, true)
    ensures Step(m) == Primitive(m, rest, Float(text))
  {
    hide Word, Primitive, Enter, Leave, ScanString, ScanNumber, ScanWord, ParseInteger, Ascii;
  }

  /** A number with a point or an exponent is loaded as a float of the whole text. */
  lemma LoadsFloats(before: Ws, text: seq<Byte>, after: Ws, heap: seq<Obj>)
    requires text != [] && (text[0] == '-' as int || IsDigit(text[0]))
    requires (forall i | 0 <= i < |text| :: InNumber(text[i])) && HasFloat(text[1..])
    ensures Load(before + text + after, heap) == Loaded(Float(text), heap)
  {
    hide Step, ScanNumber, Open, SkipSpace, HasFloat;
    WsEndsNumbers(after);
    var m0 := Initial(before + (text + after), heap);
    Assoc(before, text, after);
    SkipsSeparators(before, text + after, m0);
    var m := m0.(src := Open(text + after));
    LeadsRun(m0, m);
    assert text + after == [text[0]] + (text[1..] + after);
    NextOf(text[0], text[1..] + after);
    NumberScan(text[1..], after, [text[0]], false);
    assert [text[0]] + text[1..] == text;
    StepOnFloat(m, Open(after), text);
    var end := m.(src := Open(after), top := Some(Float(text)));
    FinishSkips(after, end);
    RunFinish(m, end);
  }

  // ---------- Characters ----------

  /** The six bits that a byte after the first carries. */
  function Tail(b: Byte): int { b - 0x80 }

  predicate IsTail(b: Byte) { 0x80 <= b < 0xc0 }

  /** The character that a sequence of bytes encodes (section 3 of RFC 3629). */
  function Utf8Value(s: seq<Byte>): Option<int> {
    if |s| == 1 && s[0] < 0x80 then Some(s[0])
    else if exists i | 0 < i < |s| :: !IsTail(s[i]) then None
    else
      match |s|
      case 2 => if 0xc0 <= s[0] < 0xe0 then Some(From2(s[0] - 0xc0, s[1])) else None
      case 3 => if 0xe0 <= s[0] < 0xf0 then Some(From3(s[0] - 0xe0, s[1], s[2])) else None
      case 4 => if 0xf0 <= s[0] < 0xf8 then Some(From4(s[0] - 0xf0, s[1], s[2], s[3])) else None
      case _ => None
  }

  function From2(first: int, b: Byte): int { first * 64 + Tail(b) }
  function From3(first: int, b: Byte, c: Byte): int { From2(first, b) * 64 + Tail(c) }
  function From4(first: int, b: Byte, c: Byte, d: Byte): int { From3(first, b, c) * 64 + Tail(d) }

  /** A character is stored in the bytes that encode it, and in no more than it takes. */
  lemma Utf8IsStandard(c: nat)
    requires c < 0x110000
    ensures Utf8Value(Utf8(c)) == Some(c)
    ensures |Utf8(c)| == if c < 0x80 then 1 else if c < 0x800 then 2 else if c < 0x10000 then 3 else 4
  {
    if c < 0x80 {
    } else if c < 0x800 {
      TwoBytes(c);
    } else if c < 0x10000 {
      ThreeBytes(c);
    } else {
      FourSextets(c);
      FourBytes(c, c / 262144, c / 4096 % 64, c / 64 % 64, c % 64);
    }
  }

  lemma TwoBytes(c: nat)
    requires 0x80 <= c < 0x800
    ensures |Utf8(c)| == 2 && Utf8Value(Utf8(c)) == Some(c)
  {
    SixBits(c);
    assert Utf8(c) == [0xc0 + c / 64, 0x80 + c % 64];
    assert From2(c / 64, 0x80 + c % 64) == c;
    hide Utf8, From2;
  }

  lemma ThreeBytes(c: nat)
    requires 0x800 <= c < 0x10000
    ensures |Utf8(c)| == 3 && Utf8Value(Utf8(c)) == Some(c)
  {
    SixBits(c);
    SixBits(c / 64);
    assert Utf8(c) == [0xe0 + c / 4096, 0x80 + c / 64 % 64, 0x80 + c % 64];
    assert From3(c / 4096, 0x80 + c / 64 % 64, 0x80 + c % 64) == c;
    hide Utf8, From3;
  }

  lemma FourBytes(n: int, a: nat, b: nat, c: nat, d: nat)
    requires a < 8 && b < 64 && c < 64 && d < 64
    requires From4(a, 0x80 + b, 0x80 + c, 0x80 + d) == n
    ensures Utf8Value([0xf0 + a, 0x80 + b, 0x80 + c, 0x80 + d]) == Some(n)
  {
    hide From4;
  }

  lemma FourSextets(c: nat)
    requires c < 0x110000
    ensures c / 262144 <= 4
    ensures From4(c / 262144, 0x80 + c / 4096 % 64, 0x80 + c / 64 % 64, 0x80 + c % 64) == c
  {
    SixBits(c);
    SixBits(c / 64);
    SixBits(c / 4096);
    assert c / 64 / 64 == c / 4096 && c / 4096 / 64 == c / 262144;
    var q, r := c / 4096, c / 64;
    assert From2(c / 262144, 0x80 + q % 64) == q;
    assert From3(c / 262144, 0x80 + q % 64, 0x80 + r % 64) == r;
    hide From3;
  }

  lemma SixBits(n: nat)
    ensures n == n / 64 * 64 + n % 64
    ensures n / 64 / 64 == n / 4096
  {
  }

  // ---------- Surrogate pairs ----------

  predicate IsPair(c: Char, d: Char)
    requires CharOk(c) && CharOk(d)
  {
    c.Unicode? && d.Unicode? && 0xd800 <= CodePoint(c) < 0xdc00 && 0xdc00 <= CodePoint(d) < 0xe000
  }

  /** What RFC 4627, section 2.5, means by a string: two escapes of a surrogate pair are one character. */
  function Joined(s: seq<Char>): seq<Byte>
    requires CharsOk(s)
    decreases |s|
  {
    if s == [] then []
    else if |s| > 1 && IsPair(s[0], s[1]) then
      Utf8(0x10000 + (CodePoint(s[0]) - 0xd800) * 0x400 + (CodePoint(s[1]) - 0xdc00)) + Joined(s[2..])
    else Meaning(s[0]) + Joined(s[1..])
  }

  function Pairs(s: seq<Char>): nat
    requires CharsOk(s)
    decreases |s|
  {
    if s == [] then 0
    else if |s| > 1 && IsPair(s[0], s[1]) then 1 + Pairs(s[2..])
    else Pairs(s[1..])
  }

  lemma {:induction false} PairsAddLength(s: seq<Char>)
    requires CharsOk(s)
    ensures |StringOf(s)| == |Joined(s)| + 2 * Pairs(s)
    ensures Pairs(s) == 0 ==> StringOf(s) == Joined(s)
    decreases |s|
  {
    hide CodePoint;
    if s == [] {
    } else if |s| > 1 && IsPair(s[0], s[1]) {
      PairsAddLength(s[2..]);
      assert s[1..][1..] == s[2..];
      assert |Meaning(s[0])| == 3 && |Meaning(s[1])| == 3;
    } else {
      PairsAddLength(s[1..]);
    }
  }

  /** The parser stores each escape of a surrogate pair on its own: the string is the one the
      standard means exactly when the text has no such pair. */
  lemma StringIsStandard(s: seq<Char>)
    requires CharsOk(s)
    ensures StringOf(s) == Joined(s) <==> Pairs(s) == 0
  {
    PairsAddLength(s);
  }

  /** U+1F600 escaped as a pair. */
  function GrinningFace(): (s: seq<Char>)
    ensures |s| == 2 && CharsOk(s) && s[1..] == [s[1]] && s[0].Unicode? && s[1].Unicode?
    ensures CharOk(s[0]) && CodePoint(s[0]) == 0xd83d && CharOk(s[1]) && CodePoint(s[1]) == 0xde00
  {
    var d: Byte := 'd' as int;
    [Unicode(d, '8' as int, '3' as int, d), Unicode(d, 'e' as int, '0' as int, '0' as int)]
  }

  lemma TwoCharacters(s: seq<Char>)
    requires |s| == 2 && CharsOk(s) && s[1..] == [s[1]] && s[0].Unicode? && s[1].Unicode?
    requires CharOk(s[0]) && CodePoint(s[0]) == 0xd83d && CharOk(s[1]) && CodePoint(s[1]) == 0xde00
    ensures StringOf(s) == [0xed, 0xa0, 0xbd, 0xed, 0xb8, 0x80]
    ensures Joined(s) == [0xf0, 0x9f, 0x98, 0x80]
  {
    hide CodePoint, CharOk, Meaning, Joined;
    var c, d := s[0], s[1];
    SixBytes(c, d);
    assert s == [c, d] && s[1..] == [d] && [d][1..] == [];
    assert StringOf([d]) == Meaning(d);
    JoinedPair(s);
  }

  lemma SixBytes(c: Char, d: Char)
    requires CharOk(c) && CharOk(d) && c.Unicode? && d.Unicode? && CodePoint(c) == 0xd83d && CodePoint(d) == 0xde00
    ensures Meaning(c) == [0xed, 0xa0, 0xbd] && Meaning(d) == [0xed, 0xb8, 0x80]
  {
    hide CodePoint, CharOk;
  }

  lemma JoinedPair(s: seq<Char>)
    requires |s| == 2 && CharsOk(s) && s[0].Unicode? && s[1].Unicode?
    requires CharOk(s[0]) && CodePoint(s[0]) == 0xd83d && CharOk(s[1]) && CodePoint(s[1]) == 0xde00
    ensures Joined(s) == [0xf0, 0x9f, 0x98, 0x80]
  {
    hide CodePoint, CharOk, Meaning;
    assert Joined(s[2..]) == [];
    assert Utf8(0x1f600) == [0xf0, 0x9f, 0x98, 0x80];
  }

  /** Six bytes are loaded instead of the character's four. */
  lemma PairIsStoredAsTwo(heap: seq<Obj>) returns (heap': seq<Obj>)
    ensures Joined(GrinningFace()) == [0xf0, 0x9f, 0x98, 0x80]
    ensures Load(Quoted(GrinningFace()), heap) == Loaded(Str([0xed, 0xa0, 0xbd, 0xed, 0xb8, 0x80]), heap')
  {
    TwoCharacters(GrinningFace());
    hide Load, Quoted;
    var j := JString(GrinningFace());
    var v;
    v, heap' := LoadReturnsTheTree([], j, [], heap);
    assert [] + Text(j) + [] == Quoted(GrinningFace());
  }

  // ---------- The tree that the standard means ----------

  /** The keys and values of an object put in a map one after the other. */
  function MapOf(keys: seq<seq<Byte>>, values: seq<Tree>, before: map<seq<Byte>, Tree>): map<seq<Byte>, Tree>
    requires |keys| == |values|
    decreases |keys|
  {
    if keys == [] then before else MapOf(keys[1..], values[1..], before[keys[0] := values[0]])
  }

  function StoredKeys(members: Members): seq<seq<Byte>>
    requires MembersOk(members)
  {
    if members.NoMembers? then [] else [StringOf(members.key)] + StoredKeys(members.more)
  }

  function MemberValues(members: Members): (r: seq<Tree>)
    requires MembersOk(members)
    ensures |r| == |StoredKeys(members)|
  {
    if members.NoMembers? then [] else [Value(members.value)] + MemberValues(members.more)
  }

  lemma {:induction false} EntriesAreMapOf(members: Members, before: map<seq<Byte>, Tree>)
    requires MembersOk(members)
    ensures Entries(members, before) == MapOf(StoredKeys(members), MemberValues(members), before)
    decreases members
  {
    hide Value, StringOf;
    if members.Member? {
      EntriesAreMapOf(members.more, before[StringOf(members.key) := Value(members.value)]);
    }
  }

  /** As Value, with every escaped pair read as one character. */
  function Standard(j: Json): Tree
    requires Ok(j)
  {
    match j
    case JString(chars) => TStr(Joined(chars))
    case JArray(_, items) => TList(StandardItems(items))
    case JObject(_, members) => TDict(MapOf(JoinedKeys(members), StandardMembers(members), map[]))
    case _ => Value(j)
  }

  function StandardItems(items: Items): seq<Tree>
    requires ItemsOk(items)
  {
    if items.NoItems? then [] else [Standard(items.value)] + StandardItems(items.more)
  }

  function JoinedKeys(members: Members): seq<seq<Byte>>
    requires MembersOk(members)
  {
    if members.NoMembers? then [] else [Joined(members.key)] + JoinedKeys(members.more)
  }

  function StandardMembers(members: Members): (r: seq<Tree>)
    requires MembersOk(members)
    ensures |r| == |JoinedKeys(members)| == |StoredKeys(members)|
  {
    if members.NoMembers? then [] else [Standard(members.value)] + StandardMembers(members.more)
  }

  /** No string in the text, key or value, has an escaped pair. */
  predicate NoPairs(j: Json)
    requires Ok(j)
  {
    match j
    case JString(chars) => Pairs(chars) == 0
    case JArray(_, items) => NoPairsInItems(items)
    case JObject(_, members) => NoPairsInKeys(members) && NoPairsInMembers(members)
    case _ => true
  }

  predicate NoPairsInItems(items: Items)
    requires ItemsOk(items)
  {
    items.Item? ==> NoPairs(items.value) && NoPairsInItems(items.more)
  }

  predicate NoPairsInKeys(members: Members)
    requires MembersOk(members)
  {
    members.Member? ==> Pairs(members.key) == 0 && NoPairsInKeys(members.more)
  }

  predicate NoPairsInMembers(members: Members)
    requires MembersOk(members)
  {
    members.Member? ==> NoPairs(members.value) && NoPairsInMembers(members.more)
  }

  lemma {:induction false} StandardWithoutPairs(j: Json)
    requires Ok(j) && NoPairs(j)
    ensures Standard(j) == Value(j)
    decreases j
  {
    match j
    case JString(chars) => StringIsStandard(chars);
    case JArray(_, items) => ItemsWithoutPairs(items);
    case JObject(_, members) =>
      KeysWithoutPairs(members);
      MembersWithoutPairs(members);
      EntriesAreMapOf(members, map[]);
    case _ =>
  }

  lemma {:induction false} ItemsWithoutPairs(items: Items)
    requires ItemsOk(items) && NoPairsInItems(items)
    ensures StandardItems(items) == Values(items)
    decreases items
  {
    hide Standard, Value;
    if items.Item? {
      StandardWithoutPairs(items.value);
      ItemsWithoutPairs(items.more);
    }
  }

  lemma {:induction false} KeysWithoutPairs(members: Members)
    requires MembersOk(members)
    ensures NoPairsInKeys(members) ==> JoinedKeys(members) == StoredKeys(members)
    ensures JoinedKeys(members) == StoredKeys(members) ==> NoPairsInKeys(members)
    decreases members
  {
    hide Joined, StringOf, Pairs;
    if members.Member? {
      StringIsStandard(members.key);
      KeysWithoutPairs(members.more);
      assert JoinedKeys(members)[1..] == JoinedKeys(members.more) && StoredKeys(members)[1..] == StoredKeys(members.more);
    }
  }

  lemma {:induction false} MembersWithoutPairs(members: Members)
    requires MembersOk(members) && NoPairsInMembers(members)
    ensures StandardMembers(members) == MemberValues(members)
    decreases members
  {
    hide Standard, Value;
    if members.Member? {
      StandardWithoutPairs(members.value);
      MembersWithoutPairs(members.more);
    }
  }

  predicate Distinct(keys: seq<seq<Byte>>) {
    forall i, k | 0 <= i < k < |keys| :: keys[i] != keys[k]
  }

  /** In no object do two keys have the same name, whether read by the standard or by the parser. */
  predicate DistinctKeys(j: Json)
    requires Ok(j)
  {
    match j
    case JArray(_, items) => DistinctInItems(items)
    case JObject(_, members) =>
      Distinct(StoredKeys(members)) && Distinct(JoinedKeys(members)) && DistinctInMembers(members)
    case _ => true
  }

  predicate DistinctInItems(items: Items)
    requires ItemsOk(items)
  {
    items.Item? ==> DistinctKeys(items.value) && DistinctInItems(items.more)
  }

  predicate DistinctInMembers(members: Members)
    requires MembersOk(members)
  {
    members.Member? ==> DistinctKeys(members.value) && DistinctInMembers(members.more)
  }

  lemma {:induction false} MapKeeps(keys: seq<seq<Byte>>, values: seq<Tree>, before: map<seq<Byte>, Tree>, k: seq<Byte>)
    requires |keys| == |values| && k !in keys
    ensures k in MapOf(keys, values, before) <==> k in before
    ensures k in before ==> MapOf(keys, values, before)[k] == before[k]
    decreases |keys|
  {
    if keys != [] {
      MapKeeps(keys[1..], values[1..], before[keys[0] := values[0]], k);
    }
  }

  lemma {:induction false} MapHas(keys: seq<seq<Byte>>, values: seq<Tree>, before: map<seq<Byte>, Tree>, i: nat)
    requires |keys| == |values| && Distinct(keys) && i < |keys|
    ensures keys[i] in MapOf(keys, values, before) && MapOf(keys, values, before)[keys[i]] == values[i]
    decreases |keys|
  {
    if i == 0 {
      MapKeeps(keys[1..], values[1..], before[keys[0] := values[0]], keys[0]);
    } else {
      MapHas(keys[1..], values[1..], before[keys[0] := values[0]], i - 1);
    }
  }

  /** Storing a key makes it longer if it has a pair, and leaves it as it is otherwise. */
  ghost predicate Longer(stored: seq<seq<Byte>>, joined: seq<seq<Byte>>) {
    && |stored| == |joined|
    && forall i | 0 <= i < |stored| :: stored[i] == joined[i] || |stored[i]| > |joined[i]|
  }

  lemma {:induction false} KeysAreLonger(members: Members)
    requires MembersOk(members)
    ensures Longer(StoredKeys(members), JoinedKeys(members))
    decreases members
  {
    hide Joined, StringOf, Pairs;
    if members.Member? {
      PairsAddLength(members.key);
      KeysAreLonger(members.more);
    }
  }

  /** The index, below n, of a longest among the keys that change. */
  lemma {:induction false} LongestChanged(stored: seq<seq<Byte>>, joined: seq<seq<Byte>>, n: nat, k: nat) returns (l: nat)
    requires |stored| == |joined| && k < n <= |stored| && stored[k] != joined[k]
    ensures l < n && stored[l] != joined[l]
    ensures forall i | 0 <= i < n && stored[i] != joined[i] :: |stored[i]| <= |stored[l]|
    decreases n
  {
    var last := n - 1;
    if exists i :: 0 <= i < last && stored[i] != joined[i] {
      var i :| 0 <= i < last && stored[i] != joined[i];
      l := LongestChanged(stored, joined, last, i);
      if stored[last] != joined[last] && |stored[last]| > |stored[l]| {
        l := last;
      }
    } else {
      l := k;
    }
  }

  /** A changed key, if it is still among the names, is the name of one that was longer. */
  lemma LongerStill(stored: seq<seq<Byte>>, joined: seq<seq<Byte>>, l: nat) returns (i: nat)
    requires Longer(stored, joined) && Distinct(stored)
    requires l < |stored| && stored[l] != joined[l] && stored[l] in joined
    ensures i < |stored| && stored[i] != joined[i] && |stored[i]| > |stored[l]|
  {
    i :| 0 <= i < |joined| && joined[i] == stored[l];
    assert i < l || l < i;
  }

  /** If the same names result, no key has changed: a longest that did would be the name of one
      that was longer still. */
  lemma SameNamesSameKeys(stored: seq<seq<Byte>>, joined: seq<seq<Byte>>)
    requires Longer(stored, joined) && Distinct(stored)
    requires forall i | 0 <= i < |stored| :: stored[i] in joined
    ensures stored == joined
  {
    if stored != joined {
      var k :| 0 <= k < |stored| && stored[k] != joined[k];
      var l := LongestChanged(stored, joined, |stored|, k);
      var i := LongerStill(stored, joined, l);
      assert false;
    }
  }

  lemma {:induction false} PairsShow(j: Json)
    requires Ok(j) && DistinctKeys(j) && Standard(j) == Value(j)
    ensures NoPairs(j)
    decreases j
  {
    match j
    case JString(chars) => StringIsStandard(chars);
    case JArray(_, items) => PairsShowInItems(items);
    case JObject(_, members) =>
      PairsShowInObject(members);
      PairsShowInMembers(members);
    case _ =>
  }

  lemma {:induction false} PairsShowInItems(items: Items)
    requires ItemsOk(items) && DistinctInItems(items) && StandardItems(items) == Values(items)
    ensures NoPairsInItems(items)
    decreases items
  {
    hide Standard, Value;
    if items.Item? {
      assert StandardItems(items)[0] == Values(items)[0] && StandardItems(items)[1..] == StandardItems(items.more)
          && Values(items)[1..] == Values(items.more);
      PairsShow(items.value);
      PairsShowInItems(items.more);
    }
  }

  lemma {:induction false} PairsShowInMembers(members: Members)
    requires MembersOk(members) && DistinctInMembers(members) && StandardMembers(members) == MemberValues(members)
    ensures NoPairsInMembers(members)
    decreases members
  {
    hide Standard, Value;
    if members.Member? {
      assert StandardMembers(members)[0] == MemberValues(members)[0]
          && StandardMembers(members)[1..] == StandardMembers(members.more)
          && MemberValues(members)[1..] == MemberValues(members.more);
      PairsShow(members.value);
      PairsShowInMembers(members.more);
    }
  }

  /** Equal maps have equal keys, and then equal values. */
  lemma PairsShowInObject(members: Members)
    requires MembersOk(members) && Distinct(StoredKeys(members)) && Distinct(JoinedKeys(members))
    requires MapOf(JoinedKeys(members), StandardMembers(members), map[]) == Entries(members, map[])
    ensures NoPairsInKeys(members) && StandardMembers(members) == MemberValues(members)
  {
    var stored, joined := StoredKeys(members), JoinedKeys(members);
    var ours, theirs := MemberValues(members), StandardMembers(members);
    EntriesAreMapOf(members, map[]);
    KeysAreLonger(members);
    KeysWithoutPairs(members);
    hide StoredKeys, JoinedKeys, MemberValues, StandardMembers, Entries, MapOf, Longer, Distinct, NoPairsInKeys;
    forall i | 0 <= i < |stored| ensures stored[i] in joined {
      MapHas(stored, ours, map[], i);
      if stored[i] !in joined {
        MapKeeps(joined, theirs, map[], stored[i]);
      }
    }
    SameNamesSameKeys(stored, joined);
    forall i | 0 <= i < |stored| ensures ours[i] == theirs[i] {
      MapHas(stored, ours, map[], i);
      MapHas(joined, theirs, map[], i);
    }
  }

  /** Loading a text gives the tree that RFC 4627 means if no string in it has an escaped pair; and,
      where the keys of each object are distinct, only then. */
  lemma LoadIsStandard(before: Ws, j: Json, after: Ws, heap: seq<Obj>) returns (v: Val, heap': seq<Obj>)
    requires Ok(j)
    ensures Load(before + Text(j) + after, heap) == Loaded(v, heap') && Denotes(heap', |heap|, v, Value(j))
    ensures NoPairs(j) ==> Value(j) == Standard(j)
    ensures DistinctKeys(j) && Value(j) == Standard(j) ==> NoPairs(j)
  {
    v, heap' := LoadReturnsTheTree(before, j, after, heap);
    if NoPairs(j) {
      StandardWithoutPairs(j);
    }
    if DistinctKeys(j) && Value(j) == Standard(j) {
      PairsShow(j);
    }
  }
}
