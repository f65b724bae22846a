/** The non-recursive JSON parser of `ujson`: an explicit stack, a pending key and one byte of
    lookahead, building lists and dicts by mutating objects it has already handed out. */
module UJson {

  import opened Basics
  import opened Bytes

  // ---------- Values and the objects they refer to ----------

  /** What a MicroPython variable can hold here. Lists and dicts are shared, mutable objects:
      a value only refers to them. A float keeps its text, whose value is not part of this model. */
  datatype Val = Nil | Bool(b: bool) | Int(n: int) | Float(text: seq<Byte>) | Str(s: seq<Byte>) | Ref(addr: nat)

  datatype Obj = List(items: seq<Val>) | Dict(entries: map<Val, Val>)

  // ---------- The input stream with its lookahead ----------

  /** s.cur and the bytes not yet read. Byte 0 marks the end of the input. */
  datatype Src = Src(cur: Byte, tail: seq<Byte>) {
    function Next(): Src {
      if tail == [] then Src(0, []) else Src(tail[0], tail[1..])
    }

    predicate AtEnd() { cur == 0 }

    ghost function Left(): nat {
      |tail| + if cur == 0 then 0 else 1
    }
  }

  /** The stream positioned on the first byte of a text. */
  function Open(text: seq<Byte>): Src {
    Src(0, text).Next()
  }

  lemma NextOf(c: Byte, rest: seq<Byte>)
    ensures Open([c] + rest).cur == c && Open([c] + rest).Next() == Open(rest)
  {
    assert ([c] + rest)[1..] == rest;
  }

  // ---------- Lexing ----------

  function Ascii(s: string): (b: seq<Byte>)
    requires forall i | 0 <= i < |s| :: s[i] < 128 as char
    ensures |b| == |s|
  {
    seq(|s|, i requires 0 <= i < |s| => s[i] as Byte)
  }

  predicate IsSeparator(c: Byte) {
    c == ',' as int || c == ':' as int || IsWs(c)
  }

  /** Insignificant whitespace (RFC 4627, section 2). */
  predicate IsWs(c: Byte) {
    c == 0x20 || c == 0x09 || c == 0x0a || c == 0x0d
  }

  /** unichar_isspace */
  predicate IsSpace(c: Byte) {
    c == 0x20 || 0x09 <= c <= 0x0d
  }

  predicate IsDigit(c: Byte) { '0' as int <= c <= '9' as int }

  /** `word` must follow; the stream is then after it. */
  function ScanWord(s: Src, word: seq<Byte>): (r: Option<Src>)
    ensures r.Some? ==> r.value.Left() <= s.Left()
    decreases |word|
  {
    if word == [] then Some(s)
    else if s.cur == word[0] then ScanWord(s.Next(), word[1..])
    else None
  }

  predicate InNumber(c: Byte) {
    IsDigit(c) || c == '.' as int || c == 'E' as int || c == 'e' as int || c == '+' as int || c == '-' as int
  }

  predicate InFloat(c: Byte) { c == '.' as int || c == 'E' as int || c == 'e' as int }

  function ScanNumber(s: Src, text: seq<Byte>, flt: bool): (r: (Src, seq<Byte>, bool))
    ensures r.0.Left() <= s.Left()
    decreases s.Left()
  {
    if InNumber(s.cur) then ScanNumber(s.Next(), text + [s.cur], flt || InFloat(s.cur))
    else (s, text, flt)
  }

  /** mp_parse_num_integer in base 10, on text of number characters. */
  function ParseInteger(text: seq<Byte>): Option<int> {
    var neg := text != [] && text[0] == '-' as int;
    var digits := if text != [] && (text[0] == '-' as int || text[0] == '+' as int) then text[1..] else text;
    if digits == [] || exists i | 0 <= i < |digits| :: !IsDigit(digits[i]) then None
    else Some(if neg then -Decimal(digits) else Decimal(digits))
  }

  function Decimal(digits: seq<Byte>): int {
    if digits == [] then 0
    else Decimal(digits[..|digits| - 1]) * 10 + (digits[|digits| - 1] - '0' as int)
  }

  /** a | b on unsigned numbers. */
  function Or(a: nat, b: nat): nat {
    if a == 0 then b else if b == 0 then a
    else 2 * Or(a / 2, b / 2) + (if a % 2 == 1 || b % 2 == 1 then 1 else 0)
  }

  /** One digit of a \\u escape: (c | 0x20) - '0', then down to 10..15 for letters, on bytes. */
  function Nibble(c: Byte): Byte {
    var lower := if c / 32 % 2 == 0 then c + 32 else c;
    var d: Byte := (lower - '0' as int) % 256;
    if d > 9 then (d - 39) % 256 else d
  }

  /** vstr_add_char: the UTF-8 form of a character. */
  function Utf8(c: nat): seq<Byte>
    requires c < 0x110000
  {
    if c < 0x80 then [c]
    else if c < 0x800 then [0xc0 + c / 64, 0x80 + c % 64]
    else if c < 0x10000 then [0xe0 + c / 4096, 0x80 + c / 64 % 64, 0x80 + c % 64]
    else [0xf0 + c / 262144, 0x80 + c / 4096 % 64, 0x80 + c / 64 % 64, 0x80 + c % 64]
  }

  function Escape(c: Byte): Byte {
    if c == 'b' as int then 0x08
    else if c == 'f' as int then 0x0c
    else if c == 'n' as int then 0x0a
    else if c == 'r' as int then 0x0d
    else if c == 't' as int then 0x09
    else c
  }

  lemma OrBound(a: nat, b: nat, k: nat, p: nat)
    requires p == Pow2(k) && a < p && b < p
    ensures Or(a, b) < p
    decreases k
  {
    if k > 0 {
      OrBound(a / 2, b / 2, k - 1, Pow2(k - 1));
    }
  }

  /** num << 4 | digit */
  function AddNibble(num: nat, d: Byte): nat {
    Or(num * 16, d)
  }

  /** The four digits of a \\u escape, the stream being on the u. */
  function ScanHex(s: Src): (r: (Src, nat))
    ensures r.1 < 0x100000 && r.0.Left() <= s.Left()
  {
    var s1 := s.Next();
    var s2 := s1.Next();
    var s3 := s2.Next();
    var s4 := s3.Next();
    var n1 := AddNibble(0, Nibble(s1.cur));
    var n2 := AddNibble(n1, Nibble(s2.cur));
    var n3 := AddNibble(n2, Nibble(s3.cur));
    var n4 := AddNibble(n3, Nibble(s4.cur));
    assert Pow2(8) == 256 by { assert Pow2(4) == 16; assert Pow2(6) == 64; }
    assert Pow2(12) == 4096 by { assert Pow2(10) == 1024; }
    assert Pow2(16) == 65536 by { assert Pow2(14) == 16384; }
    assert Pow2(20) == 0x100000 by { assert Pow2(18) == 262144; }
    OrBound(n1 * 16, Nibble(s2.cur), 12, 4096);
    OrBound(n2 * 16, Nibble(s3.cur), 16, 65536);
    OrBound(n3 * 16, Nibble(s4.cur), 20, 0x100000);
    (s4, n4)
  }

  /** The body of a string, up to its closing quote or the end of the input. */
  function ScanString(s: Src, buf: seq<Byte>): (r: (Src, seq<Byte>))
    ensures r.0.Left() <= s.Left()
    decreases s.Left()
  {
    if s.AtEnd() || s.cur == '"' as int then (s, buf)
    else if s.cur == '\\' as int then
      var e := s.Next();
      if e.cur == 'u' as int then
        var (h, num) := ScanHex(e);
        ScanString(h.Next(), buf + Utf8(num))
      else
        ScanString(e.Next(), buf + [Escape(e.cur)])
    else ScanString(s.Next(), buf + [s.cur])
  }

  // ---------- The parser as a machine ----------

  /** The parser's variables. `top` is the open container (or, at the very end, the result);
      `stack` holds the containers around it; `key` waits for its value in an open dict. */
  datatype Machine = Machine(src: Src, heap: seq<Obj>, stack: seq<nat>, top: Option<Val>, key: Option<Val>)

  datatype Result = Loaded(value: Val, heap: seq<Obj>) | SyntaxError

  datatype Outcome = Running(m: Machine) | Finished(m: Machine) | Failed

  /** Inside the loop the open containers are objects that exist. */
  predicate Valid(m: Machine) {
    && (m.top.Some? ==> IsObject(m.heap, m.top.value))
    && (forall i | 0 <= i < |m.stack| :: m.stack[i] < |m.heap|)
    && (m.top.None? ==> m.stack == [])
  }

  predicate IsObject(heap: seq<Obj>, v: Val) {
    v.Ref? && v.addr < |heap|
  }

  /** Put v in the open container: the next item of a list, or a key or its value in a dict. */
  function Append(o: Obj, key: Option<Val>, v: Val): (Obj, Option<Val>) {
    if o.List? then (List(o.items + [v]), key)
    else if key.None? then (o, Some(v))
    else (Dict(o.entries[key.value := v]), None)
  }

  /** A primitive value has been read. */
  function Primitive(m: Machine, src: Src, v: Val): (r: Outcome)
    requires Valid(m)
    ensures r.Running? ==> Valid(r.m) && r.m.src == src
  {
    if m.top.None? then Finished(m.(src := src, top := Some(v)))
    else
      var a := m.top.value.addr;
      var (o, k) := Append(m.heap[a], m.key, v);
      Running(m.(src := src, heap := m.heap[a := o], key := k))
  }

  /** An opening bracket has been read: a new empty object is appended and becomes the open one. */
  function Enter(m: Machine, src: Src, empty: Obj): (r: Outcome)
    requires Valid(m)
    ensures r.Running? ==> Valid(r.m) && r.m.src == src
  {
    var next := |m.heap|;
    if m.top.None? then Running(m.(src := src, heap := m.heap + [empty], top := Some(Ref(next))))
    else
      var a := m.top.value.addr;
      if m.heap[a].Dict? && m.key.None? then Failed
      else
        var (o, k) := Append(m.heap[a], m.key, Ref(next));
        Running(m.(src := src, heap := m.heap[a := o] + [empty], key := k,
                   stack := m.stack + [a], top := Some(Ref(next))))
  }

  /** A closing bracket, of either kind, has been read. */
  function Leave(m: Machine, src: Src): (r: Outcome)
    requires Valid(m)
    ensures r.Running? ==> Valid(r.m) && r.m.src == src
  {
    if m.top.None? then Failed
    else if m.stack == [] then Finished(m.(src := src))
    else Running(m.(src := src, stack := m.stack[..|m.stack| - 1], top := Some(Ref(m.stack[|m.stack| - 1]))))
  }

  /** One turn of the loop, on a byte that is not the end. */
  function Step(m: Machine): (r: Outcome)
    requires Valid(m) && !m.src.AtEnd()
    ensures r.Running? ==> Valid(r.m) && r.m.src.Left() < m.src.Left()
  {
    var cur := m.src.cur;
    var src := m.src.Next();
    assert src.Left() < m.src.Left();
    if IsSeparator(cur) then Running(m.(src := src))
    else if cur == 'n' as int then Word(m, src, Ascii("ull"), Nil)
    else if cur == 'f' as int then Word(m, src, Ascii("alse"), Bool(false))
    else if cur == 't' as int then Word(m, src, Ascii("rue"), Bool(true))
    else if cur == '"' as int then
      var (s, buf) := ScanString(src, []);
      if s.AtEnd() then Failed else Primitive(m, s.Next(), Str(buf))
    else if cur == '-' as int || IsDigit(cur) then
      var (s, text, flt) := ScanNumber(src, [cur], false);
      if flt then Primitive(m, s, Float(text))
      else
        var n := ParseInteger(text);
        if n.None? then Failed else Primitive(m, s, Int(n.value))
    else if cur == '[' as int then Enter(m, src, List([]))
    else if cur == '{' as int then Enter(m, src, Dict(map[]))
    else if cur == '}' as int || cur == ']' as int then Leave(m, src)
    else Failed
  }

  function Word(m: Machine, src: Src, word: seq<Byte>, v: Val): (r: Outcome)
    requires Valid(m)
    ensures r.Running? ==> Valid(r.m) && r.m.src.Left() <= src.Left()
  {
    var s := ScanWord(src, word);
    if s.None? then Failed else Primitive(m, s.value, v)
  }

  /** Run to the end; then only whitespace may follow and one object must be left. */
  function Run(m: Machine): Result
    requires Valid(m)
    decreases m.src.Left()
  {
    if m.src.AtEnd() then Finish(m)
    else
      match Step(m)
      case Running(next) => Run(next)
      case Finished(last) => Finish(last)
      case Failed => SyntaxError
  }

  function SkipSpace(s: Src): Src
    decreases s.Left()
  {
    if IsSpace(s.cur) then SkipSpace(s.Next()) else s
  }

  function Finish(m: Machine): Result {
    if !SkipSpace(m.src).AtEnd() then SyntaxError
    else if m.top.None? || m.stack != [] then SyntaxError
    else Loaded(m.top.value, m.heap)
  }

  function Initial(input: seq<Byte>, heap: seq<Obj>): Machine {
    Machine(Open(input), heap, [], None, None)
  }

  function Load(input: seq<Byte>, heap: seq<Obj>): Result {
    Run(Initial(input, heap))
  }

  /** Commas, colons and white space are skipped wherever they stand, and a byte that begins no value
      and closes none is an error. */
  lemma OtherBytes(m: Machine)
    requires Valid(m) && !m.src.AtEnd()
    ensures var c := m.src.cur;
            if c == ',' as int || c == ':' as int || c == 0x20 || c == 0x09 || c == 0x0a || c == 0x0d
            then Step(m) == Running(m.(src := m.src.Next()))
            else if c != 'n' as int && c != 't' as int && c != 'f' as int && c != '"' as int && c != '-' as int
                    && !('0' as int <= c <= '9' as int) && c != '[' as int && c != ']' as int && c != '{' as int && c != '}' as int
            then Step(m) == Failed
            else true
  {
    hide Primitive, Enter, Leave, ScanString, ScanNumber, ScanWord, ParseInteger, Ascii, Word;
  }

  // ---------- What holds in every run ----------

  predicate Contains(o: Obj, v: Val) {
    if o.List? then v in o.items else v in o.entries.Values
  }

  /** The container that is open inside the i-th one of the stack. */
  function Inner(m: Machine, i: nat): nat
    requires Valid(m) && i < |m.stack|
  {
    if i + 1 < |m.stack| then m.stack[i + 1] else m.top.value.addr
  }

  /** The stack is the path of the open containers: each holds the next, and is older than it. */
  ghost predicate IsPath(m: Machine) {
    && Valid(m)
    && forall i | 0 <= i < |m.stack| ::
         m.stack[i] < Inner(m, i) && Contains(m.heap[m.stack[i]], Ref(Inner(m, i)))
  }

  lemma {:induction false} StackBelowTop(m: Machine, i: nat)
    requires IsPath(m) && i < |m.stack|
    ensures m.stack[i] < m.top.value.addr
    decreases |m.stack| - i
  {
    hide Contains;
    if i + 1 < |m.stack| {
      StackBelowTop(m, i + 1);
    }
  }

  lemma AppendContains(o: Obj, key: Option<Val>, v: Val)
    requires o.List? || key.Some?
    ensures Contains(Append(o, key, v).0, v)
  {
    if o.Dict? {
      assert key.value in o.entries[key.value := v].Keys;
    }
  }

  /** Appending to the open container leaves the path above it alone. */
  lemma PathKept(m: Machine, m2: Machine)
    requires IsPath(m) && Valid(m2) && m2.stack == m.stack && m2.top == m.top && |m2.heap| == |m.heap|
    requires forall i | 0 <= i < |m.heap| && m.top != Some(Ref(i)) :: m2.heap[i] == m.heap[i]
    ensures IsPath(m2)
  {
    forall i | 0 <= i < |m2.stack|
      ensures m2.stack[i] < Inner(m2, i) && Contains(m2.heap[m2.stack[i]], Ref(Inner(m2, i)))
    {
      StackBelowTop(m, i);
    }
  }

  lemma EnterKeepsPath(m: Machine, src: Src, empty: Obj)
    requires IsPath(m) && Enter(m, src, empty).Running?
    ensures IsPath(Enter(m, src, empty).m)
  {
    var m2 := Enter(m, src, empty).m;
    if m.top.Some? {
      AppendContains(m.heap[m.top.value.addr], m.key, Ref(|m.heap|));
      forall i | 0 <= i < |m2.stack|
        ensures m2.stack[i] < Inner(m2, i) && Contains(m2.heap[m2.stack[i]], Ref(Inner(m2, i)))
      {
        if i < |m.stack| {
          StackBelowTop(m, i);
          assert Inner(m2, i) == Inner(m, i);
        }
      }
    }
  }

  lemma PrimitiveKeepsPath(m: Machine, src: Src, v: Val)
    requires IsPath(m) && Primitive(m, src, v).Running?
    ensures IsPath(Primitive(m, src, v).m)
  {
    PathKept(m, Primitive(m, src, v).m);
  }

  lemma LeaveKeepsPath(m: Machine, src: Src)
    requires IsPath(m) && Leave(m, src).Running?
    ensures IsPath(Leave(m, src).m)
  {
    var m2 := Leave(m, src).m;
    forall i | 0 <= i < |m2.stack|
      ensures m2.stack[i] < Inner(m2, i) && Contains(m2.heap[m2.stack[i]], Ref(Inner(m2, i)))
    {
      assert Inner(m2, i) == Inner(m, i);
    }
  }

  /** The machine after n turns of the loop, if it has not stopped before. */
  function After(m: Machine, n: nat): Option<Machine>
    requires Valid(m)
    ensures After(m, n).Some? ==> Valid(After(m, n).value)
  {
    if n == 0 then Some(m)
    else
      var before := After(m, n - 1);
      if before.None? || before.value.src.AtEnd() then None
      else
        var r := Step(before.value);
        if r.Running? then Some(r.m) else None
  }

  lemma StepKeepsPath(m: Machine)
    requires IsPath(m) && !m.src.AtEnd() && Step(m).Running?
    ensures IsPath(Step(m).m) && Step(m).m.src.Left() < m.src.Left()
  {
    var cur, src := m.src.cur, m.src.Next();
    hide Primitive, Enter, Leave, Inner, Contains;
    if IsSeparator(cur) {
      PathKept(m, m.(src := src));
    } else if cur == '[' as int {
      EnterKeepsPath(m, src, List([]));
    } else if cur == '{' as int {
      EnterKeepsPath(m, src, Dict(map[]));
    } else if cur == '}' as int || cur == ']' as int {
      LeaveKeepsPath(m, src);
    } else {
      forall s, v | Primitive(m, s, v).Running? ensures IsPath(Primitive(m, s, v).m) {
        PrimitiveKeepsPath(m, s, v);
      }
    }
  }

  /** The containers that the first n turns have opened and not closed, outermost first. A turn
      opens a new one on an opening bracket of either kind, and closes one on a closing bracket. */
  ghost function OpenContainers(m: Machine, n: nat): seq<nat>
    requires Valid(m) && After(m, n).Some?
  {
    if n == 0 then []
    else
      var before, cur := OpenContainers(m, n - 1), After(m, n - 1).value.src.cur;
      if cur == '[' as int || cur == '{' as int then before + [|After(m, n - 1).value.heap|]
      else if (cur == '}' as int || cur == ']' as int) && before != [] then before[..|before| - 1]
      else before
  }

  /** The stack, and the open container on top of it. */
  function Nest(m: Machine): seq<nat>
    requires Valid(m)
  {
    m.stack + if m.top.Some? then [m.top.value.addr] else []
  }

  /** What a turn does to the nest. */
  lemma StepNests(m: Machine)
    requires Valid(m) && !m.src.AtEnd() && Step(m).Running?
    ensures var cur, m2 := m.src.cur, Step(m).m;
            Nest(m2) == if cur == '[' as int || cur == '{' as int then Nest(m) + [|m.heap|]
                        else if cur == '}' as int || cur == ']' as int then Nest(m)[..|Nest(m)| - 1]
                        else Nest(m)
    ensures (m.src.cur == '}' as int || m.src.cur == ']' as int) ==> Nest(m) != []
  {
    var cur, src := m.src.cur, m.src.Next();
    hide Primitive, Enter, Leave, Nest, ScanString, ScanNumber, ScanWord, ParseInteger, Ascii;
    if IsSeparator(cur) {
      SameNest(m, m.(src := src));
    } else if cur == '[' as int {
      EnterNests(m, src, List([]));
    } else if cur == '{' as int {
      EnterNests(m, src, Dict(map[]));
    } else if cur == '}' as int || cur == ']' as int {
      LeaveNests(m, src);
    } else {
      PrimitiveNests(m);
    }
  }

  lemma SameNest(m: Machine, m2: Machine)
    requires Valid(m) && Valid(m2) && m2.stack == m.stack && m2.top == m.top
    ensures Nest(m2) == Nest(m)
  {
  }

  lemma EnterNests(m: Machine, src: Src, empty: Obj)
    requires Valid(m) && Enter(m, src, empty).Running?
    ensures Nest(Enter(m, src, empty).m) == Nest(m) + [|m.heap|]
  {
  }

  lemma LeaveNests(m: Machine, src: Src)
    requires Valid(m) && Leave(m, src).Running?
    ensures Nest(m) != [] && Nest(Leave(m, src).m) == Nest(m)[..|Nest(m)| - 1]
  {
    var l := |m.stack| - 1;
    assert m.stack == m.stack[..l] + [m.stack[l]];
  }

  lemma PrimitiveNests(m: Machine)
    requires Valid(m)
    ensures forall s, v | Primitive(m, s, v).Running? :: Nest(Primitive(m, s, v).m) == Nest(m)
  {
  }

  /** Whatever the input, well-formed or not, the stack with the container on top of it is the nest
      of the containers opened and not closed, each holds the next, and every turn of the loop uses
      up input. */
  lemma {:induction false} AlwaysAPath(input: seq<Byte>, heap: seq<Obj>, n: nat)
    requires After(Initial(input, heap), n).Some?
    ensures var m := After(Initial(input, heap), n).value;
            IsPath(m) && Nest(m) == OpenContainers(Initial(input, heap), n) && m.src.Left() + n <= |input|
  {
    var m0 := Initial(input, heap);
    if n > 0 {
      AlwaysAPath(input, heap, n - 1);
      StepKeepsPath(After(m0, n - 1).value);
      StepNests(After(m0, n - 1).value);
      hide Step, Nest, IsPath;
    }
  }
}
