/** The parser as the loop it is in the source, proved to do what the machine of UJson does. */
module UJsonLoader {
  import opened Basics
  import opened Bytes
  import opened UJson

  class Loader {
    const input: seq<Byte>
    var pos: nat
    var cur: Byte
    var heap: seq<Obj>  // the interpreter's objects

    ghost predicate Ready()
      reads this
    {
      pos <= |input|
    }

    ghost function Source(): Src
      requires Ready()
      reads this
    {
      Src(cur, input[pos..])
    }

    constructor (input: seq<Byte>, heap: seq<Obj>)
      ensures Ready() && this.input == input && this.heap == heap && pos == 0 && cur == 0
    {
      this.input, this.heap := input, heap;
      pos, cur := 0, 0;
    }

    /** ujson_stream_next */
    method Next()
      requires Ready()
      modifies this`pos, this`cur
      ensures Ready() && Source() == old(Source()).Next()
    {
      if pos < |input| {
        cur := input[pos];
        pos := pos + 1;
      } else {
        cur := 0;
      }
    }

    /** The chain of comparisons for null, true and false. */
    method Expect(word: seq<Byte>) returns (ok: bool)
      requires Ready()
      modifies this`pos, this`cur
      ensures Ready()
      ensures var r := ScanWord(old(Source()), word);
              ok == r.Some? && (ok ==> Source() == r.value)
    {
      ghost var s := Source();
      for i := 0 to |word|
        invariant Ready() && ScanWord(Source(), word[i..]) == ScanWord(s, word)
      {
        if cur != word[i] {
          return false;
        }
        Next();
      }
      ok := true;
    }

    method ReadHex() returns (num: nat)
      requires Ready()
      modifies this`pos, this`cur
      ensures Ready() && num < 0x100000 && (Source(), num) == ScanHex(old(Source()))
    {
      ghost var s := Source();
      hide AddNibble, Nibble;
      num := 0;
      Next();
      num := AddNibble(num, Nibble(cur));
      Next();
      num := AddNibble(num, Nibble(cur));
      Next();
      num := AddNibble(num, Nibble(cur));
      Next();
      num := AddNibble(num, Nibble(cur));
      assert ScanHex(s) == (Source(), num);
    }

    method ReadString() returns (buf: seq<Byte>)
      requires Ready()
      modifies this`pos, this`cur
      ensures Ready() && (Source(), buf) == ScanString(old(Source()), [])
    {
      hide ScanHex, Utf8;
      ghost var s := Source();
      buf := [];
      while !(cur == 0) && cur != '"' as int
        invariant Ready() && ScanString(Source(), buf) == ScanString(s, [])
        decreases Source().Left()
      {
        var c := cur;
        if c == '\\' as int {
          Next();
          c := cur;
          if c == 'u' as int {
            var num := ReadHex();
            buf := buf + Utf8(num);
            Next();
            continue;
          }
          c := Escape(c);
        }
        buf := buf + [c];
        Next();
      }
    }

    method ReadNumber(first: Byte) returns (text: seq<Byte>, flt: bool)
      requires Ready()
      modifies this`pos, this`cur
      ensures Ready() && (Source(), text, flt) == ScanNumber(old(Source()), [first], false)
    {
      ghost var s := Source();
      flt := false;
      text := [first];
      while InNumber(cur)
        invariant Ready() && ScanNumber(Source(), text, flt) == ScanNumber(s, [first], false)
        decreases Source().Left()
      {
        if InFloat(cur) {
          flt := true;
        }
        text := text + [cur];
        Next();
      }
    }

    /** One value read, or one container opened: the append-and-enter part of a turn. */
    method Deliver(next: Val, enter: bool, stack: seq<nat>, top: Option<Val>, key: Option<Val>,
                   ghost empty: Obj, ghost m: Machine)
      returns (fail: bool, done: bool, stack': seq<nat>, top': Option<Val>, key': Option<Val>)
      requires Ready() && Valid(m) && m.stack == stack && m.top == top && m.key == key
      requires heap == m.heap + if enter then [empty] else []
      requires enter ==> next == Ref(|m.heap|)
      modifies this`heap
      ensures var r := if enter then Enter(m, Source(), empty) else Primitive(m, Source(), next);
              if fail then r == Failed
              else r == if done then Finished(Machine(Source(), heap, stack', top', key'))
                        else Running(Machine(Source(), heap, stack', top', key'))
    {
      fail, done, stack', top', key' := false, false, stack, top, key;
      if top.None? {
        top' := Some(next);
        done := !enter;
      } else {
        var a := top.value.addr;
        if heap[a].List? {
          heap := heap[a := List(heap[a].items + [next])];
        } else if key.None? {
          key' := Some(next);
          if enter {
            return true, false, stack, top, key;
          }
          assert heap[a := heap[a]] == heap;
        } else {
          heap := heap[a := Dict(heap[a].entries[key.value := next])];
          key' := None;
        }
        if enter {
          stack' := stack + [a];
          top' := Some(next);
        }
      }
    }

    /** The switch of a turn, on the byte c already taken from the stream: the value it starts,
        a new container (allocated here), or a closing bracket. */
    method ReadToken(c: Byte, ghost m: Machine)
      returns (next: Val, enter: bool, closed: bool, fail: bool, ghost empty: Obj)
      requires Ready() && Valid(m) && !m.src.AtEnd() && !IsSeparator(c)
      requires c == m.src.cur && Source() == m.src.Next() && heap == m.heap
      modifies this
      ensures Ready()
      ensures fail ==> Step(m) == Failed
      ensures !fail && closed ==> heap == old(heap) && Step(m) == Leave(m, Source())
      ensures !fail && !closed && !enter ==> heap == old(heap) && Step(m) == Primitive(m, Source(), next)
      ensures !fail && !closed && enter ==>
                heap == old(heap) + [empty] && next == Ref(|old(heap)|) && Step(m) == Enter(m, Source(), empty)
    {
      hide ScanWord, ScanString, ScanNumber, Primitive, Enter, Leave, ParseInteger, Ascii;
      next, enter, closed, fail, empty := Nil, false, false, false, List([]);
      if c == 'n' as int {
        var ok := Expect(Ascii("ull"));
        next, fail := Nil, !ok;
      } else if c == 'f' as int {
        var ok := Expect(Ascii("alse"));
        next, fail := Bool(false), !ok;
      } else if c == 't' as int {
        var ok := Expect(Ascii("rue"));
        next, fail := Bool(true), !ok;
      } else if c == '"' as int {
        var buf := ReadString();
        if cur == 0 {
          fail := true;
        } else {
          Next();
          next := Str(buf);
        }
      } else if c == '-' as int || IsDigit(c) {
        var text, flt := ReadNumber(c);
        if flt {
          next := Float(text);
        } else {
          var n := ParseInteger(text);
          if n.None? {
            fail := true;
          } else {
            next := Int(n.value);
          }
        }
      } else if c == '[' as int {
        next, enter := Ref(|heap|), true;
        heap := heap + [List([])];
      } else if c == '{' as int {
        empty := Dict(map[]);
        next, enter := Ref(|heap|), true;
        heap := heap + [Dict(map[])];
      } else if c == '}' as int || c == ']' as int {
        closed := true;
      } else {
        fail := true;
      }
    }

    /** Everything after the loop: only whitespace may be left, and exactly one object. */
    method End(stack: seq<nat>, top: Option<Val>, ghost key: Option<Val>) returns (r: Result)
      requires Ready()
      modifies this`pos, this`cur
      ensures r == Finish(old(Machine(Source(), heap, stack, top, key)))
      ensures r.Loaded? ==> r.heap == heap
    {
      ghost var s := Source();
      while IsSpace(cur)
        invariant Ready() && SkipSpace(Source()) == SkipSpace(s)
        decreases Source().Left()
      {
        Next();
      }
      if cur != 0 || top.None? || stack != [] {
        return SyntaxError;
      }
      r := Loaded(top.value, heap);
    }

    /** One turn of the loop, which is not at the end of the input. */
    method Turn(stack: seq<nat>, top: Option<Val>, key: Option<Val>)
      returns (fail: bool, done: bool, stack': seq<nat>, top': Option<Val>, key': Option<Val>)
      requires Ready() && cur != 0 && Valid(Machine(Source(), heap, stack, top, key))
      modifies this
      ensures Ready()
      ensures Step(old(Machine(Source(), heap, stack, top, key)))
           == if fail then Failed
              else if done then Finished(Machine(Source(), heap, stack', top', key'))
              else Running(Machine(Source(), heap, stack', top', key'))
    {
      hide Step, Primitive, Enter, IsSeparator;
      ghost var m := Machine(Source(), heap, stack, top, key);
      fail, done, stack', top', key' := false, false, stack, top, key;
      var c := cur;
      Next();
      if IsSeparator(c) {
        SeparatorTurn(m);
        return;
      }
      var next, enter, closed;
      ghost var empty;
      next, enter, closed, fail, empty := ReadToken(c, m);
      if fail {
        return;
      }
      if closed {
        if top.None? {
          fail := true;
        } else if stack == [] {
          done := true;
        } else {
          top', stack' := Some(Ref(stack[|stack| - 1])), stack[..|stack| - 1];
        }
        return;
      }
      assert heap == m.heap + if enter then [empty] else [];
      fail, done, stack', top', key' := Deliver(next, enter, stack, top, key, empty, m);
    }

    /** mod_ujson_load */
    method Load() returns (r: Result)
      requires Ready() && pos == 0
      modifies this
      ensures r == UJson.Load(input, old(heap))
      ensures r.Loaded? ==> r.heap == heap
    {
      hide Step, Run, Finish;
      ghost var want := UJson.Load(input, heap);
      var stack: seq<nat>, top: Option<Val>, key: Option<Val> := [], None, None;
      assert input[pos..] == input;
      Next();
      assert Valid(Machine(Source(), heap, stack, top, key));
      hide Valid;
      var fail, done := false, false;
      while true
        invariant Ready() && Valid(Machine(Source(), heap, stack, top, key))
        invariant Run(Machine(Source(), heap, stack, top, key)) == want
        decreases Source().Left()
      {
        RunTurn(Machine(Source(), heap, stack, top, key));
        if cur == 0 {
          break;
        }
        fail, done, stack, top, key := Turn(stack, top, key);
        if fail {
          return SyntaxError;
        }
        if done {
          break;
        }
      }
      r := End(stack, top, key);
    }
  }

  /** What the rest of the run returns after a turn. */
  ghost function Then(o: Outcome): Result
    requires o.Running? ==> Valid(o.m)
  {
    match o
    case Running(m) => Run(m)
    case Finished(m) => Finish(m)
    case Failed => SyntaxError
  }

  lemma RunTurn(m: Machine)
    requires Valid(m)
    ensures m.src.AtEnd() ==> Run(m) == Finish(m)
    ensures !m.src.AtEnd() ==> Run(m) == Then(Step(m))
    ensures !m.src.AtEnd() && Step(m).Running? ==> Step(m).m.src.Left() < m.src.Left()
  {
  }

  lemma SeparatorTurn(m: Machine)
    requires Valid(m) && !m.src.AtEnd() && IsSeparator(m.src.cur)
    ensures Step(m) == Running(m.(src := m.src.Next()))
  {
  }
}
