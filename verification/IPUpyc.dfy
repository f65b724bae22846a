/** The translator that turns blocks of Python between two pragmas of a C++ file into string
    literals passed to the interpreter (example3_codelets.cpp). */
module IPUpyc {
  import opened Basics

  // ---------- Python's strings ----------

  predicate IsSpace(c: char) {
    c == ' ' || c == '\t' || c == '\n' || c == '\r' || c == '\U{0b}' || c == '\U{0c}'
  }

  predicate Blank(s: string) {
    forall i | 0 <= i < |s| :: IsSpace(s[i])
  }

  function Spaces(s: string): (n: nat)
    ensures n <= |s| && (n < |s| ==> !IsSpace(s[n]))
  {
    if s == "" || !IsSpace(s[0]) then 0 else 1 + Spaces(s[1..])
  }

  lemma {:induction false} SpacesAreBlank(s: string)
    ensures Blank(s[..Spaces(s)])
    decreases |s|
  {
    if s != "" && IsSpace(s[0]) {
      SpacesAreBlank(s[1..]);
      assert s[..Spaces(s)] == [s[0]] + s[1..][..Spaces(s[1..])];
    }
  }

  function WordLength(s: string): (n: nat)
    ensures n <= |s| && (s != "" && !IsSpace(s[0]) ==> n > 0)
  {
    if s == "" || IsSpace(s[0]) then 0 else 1 + WordLength(s[1..])
  }

  lemma {:induction false} WordHasNoSpace(s: string)
    ensures ' ' !in s[..WordLength(s)]
    decreases |s|
  {
    if s != "" && !IsSpace(s[0]) {
      WordHasNoSpace(s[1..]);
      assert s[..WordLength(s)] == [s[0]] + s[1..][..WordLength(s[1..])];
    }
  }

  /** str.split() */
  function Words(s: string): seq<string>
    decreases |s|
  {
    var t := s[Spaces(s)..];
    if t == "" then [] else [t[..WordLength(t)]] + Words(t[WordLength(t)..])
  }

  /** ' '.join */
  function Joined(words: seq<string>): string {
    if words == [] then "" else if |words| == 1 then words[0] else words[0] + " " + Joined(words[1..])
  }

  function SpacesAtEnd(s: string): (n: nat)
    ensures n <= |s|
  {
    if s == "" || !IsSpace(s[|s| - 1]) then 0 else 1 + SpacesAtEnd(s[..|s| - 1])
  }

  /** str.strip() */
  function Strip(s: string): string {
    var t := s[Spaces(s)..];
    t[..|t| - SpacesAtEnd(t)]
  }

  /** str.split(c) */
  function SplitOn(s: string, c: char): (r: seq<string>)
    ensures r != []
  {
    if s == "" then [""]
    else
      var rest := SplitOn(s[1..], c);
      if s[0] == c then [""] + rest else [[s[0]] + rest[0]] + rest[1..]
  }

  /** str.replace of one character */
  function Replaced(s: string, c: char, other: string): string {
    if s == "" then "" else (if s[0] == c then other else [s[0]]) + Replaced(s[1..], c, other)
  }

  /** str.find */
  function Find(s: string, t: string): (r: int)
    ensures -1 <= r <= |s|
  {
    if t <= s then 0
    else if s == "" then -1
    else var r := Find(s[1..], t); if r == -1 then -1 else 1 + r
  }

  predicate EndsWith(s: string, t: string) {
    |t| <= |s| && s[|s| - |t|..] == t
  }

  // ---------- C string literals ----------

  /** What a C compiler reads from just after the opening quote: the string and what follows. */
  datatype Literal = Literal(value: string, rest: string) | Broken

  function ReadLiteral(s: string): Literal {
    if s == "" || s[0] == '\n' then Broken
    else if s[0] == '"' then Literal("", s[1..])
    else if s[0] == '\\' then
      if |s| < 2 then Broken
      else if s[1] == '\\' || s[1] == '"' then Before(s[1], ReadLiteral(s[2..]))
      else if s[1] == 'n' then Before('\n', ReadLiteral(s[2..]))
      else Broken
    else Before(s[0], ReadLiteral(s[1..]))
  }

  function Before(c: char, l: Literal): Literal {
    if l.Broken? then Broken else Literal([c] + l.value, l.rest)
  }

  /** The two replacements, of which the backslashes must come first. */
  function Escaped(s: string): string {
    Replaced(Replaced(s, '\\', "\\\\"), '"', "\\\"")
  }

  lemma {:induction false} ReplacedConcat(a: string, b: string, c: char, other: string)
    ensures Replaced(a + b, c, other) == Replaced(a, c, other) + Replaced(b, c, other)
    decreases |a|
  {
    if a == "" {
      assert a + b == b;
    } else {
      ReplacedConcat(a[1..], b, c, other);
      assert (a + b)[1..] == a[1..] + b && (a + b)[0] == a[0];
      Assoc(if a[0] == c then other else [a[0]], Replaced(a[1..], c, other), Replaced(b, c, other));
    }
  }

  lemma EscapedFront(s: string)
    requires s != ""
    ensures Escaped(s) == (if s[0] == '\\' then "\\\\" else if s[0] == '"' then "\\\"" else [s[0]]) + Escaped(s[1..])
  {
    var rest := Replaced(s[1..], '\\', "\\\\");
    if s[0] == '\\' {
      ReplacedConcat("\\\\", rest, '"', "\\\"");
      TwoBackslashes();
    } else {
      ReplacedConcat([s[0]], rest, '"', "\\\"");
      OneCharacter(s[0]);
    }
  }

  lemma TwoBackslashes()
    ensures Replaced("\\\\", '"', "\\\"") == "\\\\"
  {
    assert "\\\\"[1..] == "\\";
    OneCharacter('\\');
  }

  lemma OneCharacter(c: char)
    ensures Replaced([c], '"', "\\\"") == if c == '"' then "\\\"" else [c]
  {
    assert [c][1..] == "";
  }

  /** What was escaped is read back, and the literal goes on after it. */
  lemma {:induction false} EscapedReadsBack(s: string, more: string)
    requires '\n' !in s
    ensures ReadLiteral(Escaped(s) + more) == Prefixed(s, ReadLiteral(more))
    decreases |s|
  {
    if s == "" {
      assert Escaped(s) + more == more;
    } else {
      EscapedFront(s);
      EscapedReadsBack(s[1..], more);
      ReadFront(s[0], Escaped(s[1..]) + more);
      var front := if s[0] == '\\' then "\\\\" else if s[0] == '"' then "\\\"" else [s[0]];
      hide Escaped, ReadLiteral, Before;
      Assoc(front, Escaped(s[1..]), more);
      PrefixedMore(s[0], s[1..], ReadLiteral(more));
      assert s == [s[0]] + s[1..];
    }
  }

  lemma PrefixedMore(c: char, s: string, l: Literal)
    ensures Before(c, Prefixed(s, l)) == Prefixed([c] + s, l)
  {
    if !l.Broken? {
      Assoc([c], s, l.value);
    }
  }

  function Prefixed(s: string, l: Literal): Literal {
    if l.Broken? then Broken else Literal(s + l.value, l.rest)
  }

  lemma ReadFront(c: char, more: string)
    requires c != '\n'
    ensures ReadLiteral((if c == '\\' then "\\\\" else if c == '"' then "\\\"" else [c]) + more) == Before(c, ReadLiteral(more))
  {
    if c == '\\' {
      assert ("\\\\" + more)[2..] == more;
    } else if c == '"' {
      assert ("\\\"" + more)[2..] == more;
    } else {
      assert ([c] + more)[1..] == more;
    }
  }

  // ---------- The variable list ----------

  /** A variable's Python name, its C++ name and the code of its type. */
  datatype Variable = Variable(pyname: string, cppname: string, dtype: char)

  /** The type is what the C++ name ends with. */
  function Typed(pyname: string, cppname: string): Variable {
    if EndsWith(cppname, "<float>") then Variable(pyname, Strip(cppname[..|cppname| - 7]), 'f')
    else if EndsWith(cppname, "<int>") then Variable(pyname, Strip(cppname[..|cppname| - 5]), 'i')
    else if EndsWith(cppname, "<char>") then Variable(pyname, Strip(cppname[..|cppname| - 6]), 'b')
    else Variable(pyname, cppname, 'i')
  }

  /** parse_varname; None when there is more than one '='. */
  function ParseVarname(varname: string): Option<Variable> {
    var parts := SplitOn(varname, '=');
    if |parts| > 2 then None else Some(Typed(Strip(parts[0]), Strip(parts[|parts| - 1])))
  }

  /** A name as it may stand in the list: neither empty nor padded, and free of '='. */
  predicate Name(s: string) {
    s != "" && !IsSpace(s[0]) && !IsSpace(s[|s| - 1]) && '=' !in s
  }

  lemma {:induction false} SpacesOf(w: string, s: string)
    requires Blank(w) && (s == "" || !IsSpace(s[0]))
    ensures Spaces(w + s) == |w|
    decreases |w|
  {
    if w == "" {
      assert w + s == s;
    } else {
      SpacesOf(w[1..], s);
      assert (w + s)[1..] == w[1..] + s;
    }
  }

  lemma {:induction false} SpacesAtEndOf(s: string, w: string)
    requires Blank(w) && (s == "" || !IsSpace(s[|s| - 1]))
    ensures SpacesAtEnd(s + w) == |w|
    decreases |w|
  {
    if w == "" {
      assert s + w == s;
    } else {
      SpacesAtEndOf(s, w[..|w| - 1]);
      assert (s + w)[..|s + w| - 1] == s + w[..|w| - 1];
    }
  }

  lemma StripPadded(a: string, s: string, b: string)
    requires Blank(a) && Blank(b) && s != "" && !IsSpace(s[0]) && !IsSpace(s[|s| - 1])
    ensures Strip(a + s + b) == s
  {
    Assoc(a, s, b);
    SpacesOf(a, s + b);
    assert (a + (s + b))[|a|..] == s + b;
    SpacesAtEndOf(s, b);
    assert (s + b)[..|s|] == s;
  }

  lemma {:induction false} SplitNone(s: string, c: char)
    requires c !in s
    ensures SplitOn(s, c) == [s]
    decreases |s|
  {
    if s != "" {
      SplitNone(s[1..], c);
      assert [s[0]] + s[1..] == s;
    }
  }

  lemma {:induction false} SplitOnce(a: string, b: string, c: char)
    requires c !in a && c !in b
    ensures SplitOn(a + [c] + b, c) == [a, b]
    decreases |a|
  {
    var s := a + [c] + b;
    if a == "" {
      assert s[1..] == b;
      SplitNone(b, c);
    } else {
      assert s[1..] == a[1..] + [c] + b;
      SplitOnce(a[1..], b, c);
      assert [a[0]] + a[1..] == a;
    }
  }

  /** The type suffixes that are understood. */
  function Suffix(dtype: char): string {
    if dtype == 'f' then "<float>" else if dtype == 'b' then "<char>" else "<int>"
  }

  lemma SuffixEnds(cpp: string, s: string, dtype: char)
    requires dtype == 'f' || dtype == 'i' || dtype == 'b'
    ensures var t := cpp + s + Suffix(dtype);
            && EndsWith(t, Suffix(dtype)) && t[..|t| - |Suffix(dtype)|] == cpp + s
            && (EndsWith(t, "<float>") <==> dtype == 'f') && (EndsWith(t, "<int>") <==> dtype == 'i')
            && (EndsWith(t, "<char>") <==> dtype == 'b')
  {
    hide EndsWith;
    var t := cpp + s + Suffix(dtype);
    EndsWithIt(cpp + s, Suffix(dtype));
    LettersAtEnd(t, Suffix(dtype));
    if EndsWith(t, "<float>") {
      LettersAtEnd(t, "<float>");
    }
    if EndsWith(t, "<int>") {
      LettersAtEnd(t, "<int>");
    }
    if EndsWith(t, "<char>") {
      LettersAtEnd(t, "<char>");
    }
  }

  lemma EndsWithIt(s: string, t: string)
    ensures EndsWith(s + t, t) && (s + t)[..|s + t| - |t|] == s
  {
  }

  lemma LettersAtEnd(s: string, t: string)
    requires EndsWith(s, t) && |t| >= 3
    ensures |s| >= 3 && s[|s| - 2] == t[|t| - 2] && s[|s| - 3] == t[|t| - 3]
  {
    var from := |s| - |t|;
    assert s[from..][|t| - 2] == s[|s| - 2] && s[from..][|t| - 3] == s[|s| - 3];
  }

  lemma TypedIs(v: Variable, d: string)
    requires Blank(d) && Name(v.cppname) && (v.dtype == 'f' || v.dtype == 'i' || v.dtype == 'b')
    ensures Typed(v.pyname, v.cppname + d + Suffix(v.dtype)) == v
  {
    SuffixEnds(v.cppname, d, v.dtype);
    StripPadded("", v.cppname, d);
    assert "" + v.cppname + d == v.cppname + d;
    hide Strip, EndsWith;
  }

  lemma ParseTwo(left: string, right: string)
    requires '=' !in left && '=' !in right
    ensures ParseVarname(left + "=" + right) == Some(Typed(Strip(left), Strip(right)))
  {
    hide Strip, Typed;
    assert ['='] == "=";
    SplitOnce(left, right, '=');
  }

  /** "py = cpp <type>" means what it says, however it is spaced. */
  lemma ParsesDeclaration(v: Variable, a: string, b: string, c: string, d: string, e: string)
    requires Blank(a) && Blank(b) && Blank(c) && Blank(d) && Blank(e) && Name(v.pyname) && Name(v.cppname)
    requires v.dtype == 'f' || v.dtype == 'i' || v.dtype == 'b'
    ensures ParseVarname(a + v.pyname + b + "=" + (c + (v.cppname + d + Suffix(v.dtype)) + e)) == Some(v)
  {
    var mid := v.cppname + d + Suffix(v.dtype);
    NoEqualsIn(a, v.pyname, b);
    NoEqualsIn(v.cppname, d, Suffix(v.dtype));
    NoEqualsIn(c, mid, e);
    assert mid[0] == v.cppname[0] && mid[|mid| - 1] == '>';
    hide ParseVarname, Strip, Typed, Blank, Suffix;
    ParseTwo(a + v.pyname + b, c + mid + e);
    StripPadded(a, v.pyname, b);
    StripPadded(c, mid, e);
    TypedIs(v, d);
  }

  lemma NoEqualsIn(a: string, b: string, c: string)
    requires (Blank(a) || '=' !in a) && (Blank(b) || '=' !in b) && (Blank(c) || '=' !in c)
    ensures '=' !in a + b + c
  {
    NoEquals(a);
    NoEquals(b);
    NoEquals(c);
  }

  lemma NoEquals(w: string)
    ensures Blank(w) ==> '=' !in w
  {
  }

  // ---------- A block ----------

  datatype Error = EndOutsideBlock | EofInsideBlock | AssertionError | IndexError | UnpackError

  /** What the translator prints, and how it ends. */
  datatype Result = Printed(out: string) | Raised(error: Error, out: string)

  /** The fixed C++ text around the generated code. */
  datatype Texts = Texts(
    header: string,
    opening: (string, string) -> string,     // of the indent and the arguments of IPUpy_set_stdout
    closing: string -> string)               // what follows the literal's closing quote

  datatype Variables = Variables(lines: string, stdout: string) | Unparsed

  function Code(dtype: char): string {
    if dtype == 'f' then "102" else if dtype == 'b' then "98" else "105"
  }

  function VariableLine(v: Variable, indent: string): string {
    indent + "IPUpy_add_memory_as_array(\"" + v.pyname + "\", &" + v.cppname + "[0], " + v.cppname + ".size(), "
    + Code(v.dtype) + ");"
  }

  /** The lines for the variables; the one called stdout is where the output goes instead. */
  function VariablesOf(items: seq<string>, indent: string): Variables {
    if items == [] then Variables("", "NULL, 0")
    else
      var l := |items| - 1;
      var so, v := VariablesOf(items[..l], indent), ParseVarname(items[l]);
      if so.Unparsed? || v.None? then Unparsed
      else if v.value.pyname == "stdout" then
        so.(stdout := "&" + v.value.cppname + "[0], " + v.value.cppname + ".size()")
      else so.(lines := so.lines + VariableLine(v.value, indent) + "\n")
  }

  /** An item of the list can be read if it has at most one '='. */
  predicate Readable(item: string) {
    multiset(item)['='] <= 1
  }

  predicate AllReadable(items: seq<string>) {
    forall i | 0 <= i < |items| :: Readable(items[i])
  }

  lemma AllReadableMore(items: seq<string>, item: string)
    ensures AllReadable(items + [item]) <==> AllReadable(items) && Readable(item)
  {
    hide Readable;
    if AllReadable(items + [item]) {
      forall i | 0 <= i < |items| ensures Readable(items[i]) {
        assert items[i] == (items + [item])[i];
      }
      assert (items + [item])[|items|] == item;
    }
  }

  /** What an item adds to the lines. */
  /** A C++ call. */
  function CallOf(name: string, args: seq<string>): string {
    name + "(" + Commas(args) + ");"
  }

  function Commas(args: seq<string>): string {
    if args == [] then "" else if |args| == 1 then args[0] else args[0] + ", " + Commas(args[1..])
  }

  /** The number that a decimal numeral means. */
  function Numeral(s: string): int {
    if s == "" then 0 else Numeral(s[..|s| - 1]) * 10 + (s[|s| - 1] as int - '0' as int)
  }

  /** A variable line calls IPUpy_add_memory_as_array(name, data, num_elts, dtype), with the name in
      quotes, the address and the size of the vector, and the number of the type's character. */
  lemma VariableLineCalls(v: Variable, indent: string)
    requires v.dtype == 'f' || v.dtype == 'i' || v.dtype == 'b'
    ensures var args := ["\"" + v.pyname + "\"", "&" + v.cppname + "[0]", v.cppname + ".size()", Code(v.dtype)];
            VariableLine(v, indent) == indent + CallOf("IPUpy_add_memory_as_array", args)
    ensures Numeral(Code(v.dtype)) == v.dtype as int
  {
    var args := ["\"" + v.pyname + "\"", "&" + v.cppname + "[0]", v.cppname + ".size()", Code(v.dtype)];
    CommasOfFour(args);
    CodeIsNumber(v.dtype);
    hide Code, Commas, Numeral;
  }

  lemma CommasOfFour(args: seq<string>)
    requires |args| == 4
    ensures Commas(args) == args[0] + ", " + args[1] + ", " + args[2] + ", " + args[3]
  {
    assert args[1..][1..] == args[2..] && args[2..][1..] == args[3..];
    assert Commas(args[2..]) == args[2] + ", " + args[3];
  }

  lemma CodeIsNumber(dtype: char)
    requires dtype == 'f' || dtype == 'i' || dtype == 'b'
    ensures Numeral(Code(dtype)) == dtype as int
  {
    var s := Code(dtype);
    assert s[..|s| - 1][..|s| - 2] == s[..|s| - 2];
    if |s| == 3 {
      assert s[..1][..0] == "";
      assert Numeral(s[..1]) == s[0] as int - '0' as int;
    } else {
      assert Numeral(s[..1]) == s[0] as int - '0' as int;
    }
  }

  function LineFor(item: string, indent: string): string {
    var v := ParseVarname(item);
    if v.None? || v.value.pyname == "stdout" then "" else VariableLine(v.value, indent) + "\n"
  }

  predicate IsStdout(item: string) {
    var v := ParseVarname(item);
    v.Some? && v.value.pyname == "stdout"
  }

  function LinesFor(items: seq<string>, indent: string): seq<string> {
    seq(|items|, i requires 0 <= i < |items| => LineFor(items[i], indent))
  }

  /** The list is read exactly when each of its items is; the lines are those of the items in
      order. */
  lemma {:induction false} VariablesAre(items: seq<string>, indent: string)
    ensures var r := VariablesOf(items, indent);
            && (r.Variables? <==> AllReadable(items))
            && (r.Variables? ==> r.lines == Flat(LinesFor(items, indent)))
    decreases |items|
  {
    hide ParseVarname, VariableLine, Flat, LineFor, LinesFor, AllReadable, Readable;
    if items == [] {
      NoLinesFor(indent);
    } else {
      var before, item := items[..|items| - 1], items[|items| - 1];
      VariablesAre(before, indent);
      assert items == before + [item];
      AllReadableMore(before, item);
      ReadableItem(item);
      LinesForMore(before, item, indent);
    }
  }

  lemma NoLinesFor(indent: string)
    ensures Flat(LinesFor([], indent)) == "" && AllReadable([])
  {
  }

  lemma LinesForMore(items: seq<string>, item: string, indent: string)
    ensures Flat(LinesFor(items + [item], indent)) == Flat(LinesFor(items, indent)) + LineFor(item, indent)
    ensures ParseVarname(item).Some? ==>
              LineFor(item, indent) == if IsStdout(item) then "" else VariableLine(ParseVarname(item).value, indent) + "\n"
    ensures Flat(LinesFor(items, indent)) + "" == Flat(LinesFor(items, indent))
  {
    hide ParseVarname, VariableLine, Flat;
    assert LinesFor(items + [item], indent) == LinesFor(items, indent) + [LineFor(item, indent)];
    FlatConcat(LinesFor(items, indent), [LineFor(item, indent)]);
    FlatOne(LineFor(item, indent));
  }

  /** The output goes to the last item called stdout, and nowhere when there is none. */
  lemma {:induction false} OutputIs(items: seq<string>, indent: string, k: nat)
    requires VariablesOf(items, indent).Variables? && k <= |items|
    requires forall i | k <= i < |items| :: !IsStdout(items[i])
    requires k > 0 ==> IsStdout(items[k - 1])
    ensures VariablesOf(items, indent).stdout
            == if k == 0 then "NULL, 0"
               else
                 var cppname := ParseVarname(items[k - 1]).value.cppname;
                 "&" + cppname + "[0], " + cppname + ".size()"
    decreases |items|
  {
    hide ParseVarname, VariableLine;
    if k < |items| {
      OutputIs(items[..|items| - 1], indent, k);
    }
  }

  lemma {:induction false} SplitCounts(s: string, c: char)
    ensures |SplitOn(s, c)| == multiset(s)[c] + 1
    decreases |s|
  {
    if s != "" {
      SplitCounts(s[1..], c);
      assert s == [s[0]] + s[1..];
    }
  }

  /** An item is read exactly when it has at most one '='. */
  lemma ReadableItem(item: string)
    ensures ParseVarname(item).Some? <==> Readable(item)
  {
    SplitCounts(item, '=');
  }

  /** The literal for the lines that are not blank: without the block's indent, escaped, each with
      an escaped newline. */
  function Payload(lines: seq<string>, indent: string): Result {
    if lines == [] then Printed("")
    else
      var l := |lines| - 1;
      var before := Payload(lines[..l], indent);
      if before.Raised? || Blank(lines[l]) then before
      else if !(indent <= lines[l]) then Raised(AssertionError, before.out)
      else Printed(before.out + (Escaped(lines[l][|indent|..]) + "\\n"))
  }

  predicate Indented(lines: seq<string>, indent: string) {
    forall i | 0 <= i < |lines| :: Blank(lines[i]) || indent <= lines[i]
  }

  /** The Python text that is meant. */
  function Dedented(lines: seq<string>, indent: string): string
    requires Indented(lines, indent)
  {
    if lines == [] then ""
    else
      var l := |lines| - 1;
      Dedented(lines[..l], indent) + if Blank(lines[l]) then "" else lines[l][|indent|..] + "\n"
  }

  lemma NewlineReadsBack(more: string)
    ensures ReadLiteral("\\n" + more) == Prefixed("\n", ReadLiteral(more))
  {
    assert ("\\n" + more)[2..] == more;
  }

  lemma {:induction false} PayloadReadsBack(lines: seq<string>, indent: string, more: string)
    requires forall i | 0 <= i < |lines| :: '\n' !in lines[i]
    ensures Payload(lines, indent).Printed? <==> Indented(lines, indent)
    ensures Indented(lines, indent) ==>
              ReadLiteral(Payload(lines, indent).out + more) == Prefixed(Dedented(lines, indent), ReadLiteral(more))
    decreases |lines|
  {
    hide Escaped, ReadLiteral;
    if lines == [] {
      assert "" + more == more;
      PrefixedNothing(ReadLiteral(more));
    } else {
      var l := |lines| - 1;
      var before, line := Payload(lines[..l], indent), lines[l];
      assert Indented(lines, indent) <==> Indented(lines[..l], indent) && (Blank(line) || indent <= line) by {
        IndentedMore(lines, indent);
      }
      if Blank(line) {
        PayloadReadsBack(lines[..l], indent, more);
        assert Indented(lines, indent) ==> Dedented(lines, indent) == Dedented(lines[..l], indent);
      } else if indent <= line {
        var rest := line[|indent|..];
        var added := Escaped(rest) + "\\n";
        PayloadReadsBack(lines[..l], indent, added + more);
        Assoc(before.out, added, more);
        Assoc(Escaped(rest), "\\n", more);
        EscapedReadsBack(rest, "\\n" + more);
        NewlineReadsBack(more);
        if Indented(lines, indent) {
          PrefixedThrice(Dedented(lines[..l], indent), rest, "\n", ReadLiteral(more));
        }
      } else {
        PayloadReadsBack(lines[..l], indent, more);
      }
    }
  }

  lemma IndentedMore(lines: seq<string>, indent: string)
    requires lines != []
    ensures var l := |lines| - 1;
            Indented(lines, indent) <==> Indented(lines[..l], indent) && (Blank(lines[l]) || indent <= lines[l])
  {
    var l := |lines| - 1;
    if Indented(lines[..l], indent) && (Blank(lines[l]) || indent <= lines[l]) {
      forall i | 0 <= i < |lines| ensures Blank(lines[i]) || indent <= lines[i] {
        assert i < l ==> lines[i] == lines[..l][i];
      }
    }
  }

  lemma PrefixedNothing(l: Literal)
    ensures Prefixed("", l) == l
  {
  }

  lemma PrefixedThrice(a: string, b: string, c: string, l: Literal)
    ensures Prefixed(a, Prefixed(b, Prefixed(c, l))) == Prefixed(a + (b + c), l)
  {
    if !l.Broken? {
      assert a + (b + (c + l.value)) == a + (b + c) + l.value;
    }
  }

  const PRAGMA := "#pragma"
  const START := PRAGMA + " IPUpy_start"
  const END := PRAGMA + " IPUpy_end"

  /** The first two words of a line. */
  function LineStart(line: string): string {
    var words := Words(line);
    Joined(if |words| < 2 then words else words[..2])
  }

  /** header[:header.find('#pragma')] */
  function Indent(header: string): string {
    var n := Find(header, PRAGMA);
    if n >= 0 then header[..n] else if header == "" then "" else header[..|header| - 1]
  }

  // ---------- What a pragma says ----------

  predicate IsWord(w: string) {
    w != "" && forall i | 0 <= i < |w| :: !IsSpace(w[i])
  }

  /** Words with white space of any kind after each of them; after the last there may be none. */
  function Spread(words: seq<string>, gaps: seq<string>): string
    requires |words| == |gaps|
  {
    if words == [] then "" else words[0] + (gaps[0] + Spread(words[1..], gaps[1..]))
  }

  ghost predicate AreSpread(words: seq<string>, gaps: seq<string>) {
    && |words| == |gaps|
    && (forall i | 0 <= i < |words| :: IsWord(words[i]) && Blank(gaps[i]))
    && forall i | 0 <= i < |words| - 1 :: gaps[i] != ""
  }

  lemma {:induction false} WordLengthOf(w: string, rest: string)
    requires (forall i | 0 <= i < |w| :: !IsSpace(w[i])) && (rest == "" || IsSpace(rest[0]))
    ensures WordLength(w + rest) == |w|
    decreases |w|
  {
    if w == "" {
      assert w + rest == rest;
    } else {
      WordLengthOf(w[1..], rest);
      assert (w + rest)[1..] == w[1..] + rest;
    }
  }

  /** However the words of a line are spaced, they are found. */
  lemma {:induction false} WordsAreFound(before: string, words: seq<string>, gaps: seq<string>)
    requires Blank(before) && AreSpread(words, gaps)
    ensures Words(before + Spread(words, gaps)) == words
    decreases |words|
  {
    var line, text := before + Spread(words, gaps), Spread(words, gaps);
    SpacesOf(before, text);
    assert line[|before|..] == text;
    if words != [] {
      var rest := gaps[0] + Spread(words[1..], gaps[1..]);
      hide Spaces, WordLength, IsSpace, Blank;
      GapFirst(words, gaps);
      WordLengthOf(words[0], rest);
      WordsAreFound(gaps[0], words[1..], gaps[1..]);
      assert text[..|words[0]|] == words[0] && text[|words[0]|..] == rest;
      assert [words[0]] + words[1..] == words;
    }
  }

  lemma GapFirst(words: seq<string>, gaps: seq<string>)
    requires AreSpread(words, gaps) && words != []
    ensures AreSpread(words[1..], gaps[1..]) && Blank(gaps[0])
    ensures var rest := gaps[0] + Spread(words[1..], gaps[1..]); rest == "" || IsSpace(rest[0])
    ensures (forall i | 0 <= i < |words[0]| :: !IsSpace(words[0][i])) && words[0] != ""
  {
    assert IsWord(words[0]) && Blank(gaps[0]);
    if |words| > 1 {
      assert gaps[0] != "";
    }
  }

  /** A start pragma, with its list behind it: how it is recognised, what stands before it, and the
      list with single spaces. */
  lemma PragmaIsRead(indent: string, words: seq<string>, gaps: seq<string>)
    requires Blank(indent) && AreSpread(words, gaps) && |words| >= 2 && words[0] == PRAGMA
    ensures var header := indent + Spread(words, gaps);
            && LineStart(header) == PRAGMA + " " + words[1]
            && Indent(header) == indent
            && ListOf(header) == Joined(words[2..])
  {
    var header := indent + Spread(words, gaps);
    WordsAreFound(indent, words, gaps);
    hide Words, Spread, Find;
    TwoWords(words);
    Assoc(words[0], " ", words[1]);
    assert header[..|indent|] == indent;
    assert PRAGMA <= header[|indent|..] by {
      assert header[|indent|..] == Spread(words, gaps);
      StartsWithWord(words, gaps);
    }
    FindAfterBlanks(header, |indent|, PRAGMA);
  }

  lemma StartsWithWord(words: seq<string>, gaps: seq<string>)
    requires |words| == |gaps| && words != []
    ensures words[0] <= Spread(words, gaps)
  {
  }

  /** Items with the character between them. */
  function JoinedBy(items: seq<string>, c: char): string
    requires items != []
  {
    if |items| == 1 then items[0] else items[0] + [c] + JoinedBy(items[1..], c)
  }

  lemma {:induction false} SplitFirst(a: string, rest: string, c: char)
    requires c !in a
    ensures SplitOn(a + [c] + rest, c) == [a] + SplitOn(rest, c)
    decreases |a|
  {
    var s := a + [c] + rest;
    if a == "" {
      assert s[1..] == rest;
    } else {
      assert s[1..] == a[1..] + [c] + rest;
      SplitFirst(a[1..], rest, c);
      assert [a[0]] + a[1..] == a;
    }
  }

  /** Splitting finds the items again. */
  lemma {:induction false} SplitJoined(items: seq<string>, c: char)
    requires items != [] && forall i | 0 <= i < |items| :: c !in items[i]
    ensures SplitOn(JoinedBy(items, c), c) == items
    decreases |items|
  {
    if |items| == 1 {
      SplitNone(items[0], c);
    } else {
      SplitFirst(items[0], JoinedBy(items[1..], c), c);
      SplitJoined(items[1..], c);
      assert [items[0]] + items[1..] == items;
    }
  }

  /** So the items of a list in brackets, without white space in it, are those between its commas. */
  lemma ItemsAreRead(indent: string, gaps: seq<string>, items: seq<string>)
    requires items != [] && forall i | 0 <= i < |items| :: ',' !in items[i]
    requires var words := [PRAGMA, "IPUpy_start", "[" + JoinedBy(items, ',') + "]"]; Blank(indent) && AreSpread(words, gaps)
    ensures var header := indent + Spread([PRAGMA, "IPUpy_start", "[" + JoinedBy(items, ',') + "]"], gaps);
            LineStart(header) == START && Indent(header) == indent && Items(header) == items
  {
    var text := JoinedBy(items, ',');
    var words := [PRAGMA, "IPUpy_start", "[" + text + "]"];
    PragmaIsRead(indent, words, gaps);
    assert words[2..] == [words[2]];
    SplitJoined(items, ',');
    hide Words, Spread, Find, SplitOn, JoinedBy;
    var list := "[" + text + "]";
    assert list[1..|list| - 1] == text;
    assert PRAGMA + " " + "IPUpy_start" == START;
  }

  /** The call that takes the literal, up to its opening quote. */
  const CALL := "IPUpy_do_str(\""

  /** ' '.join(header.split()[2:]) */
  function ListOf(header: string): string {
    var words := Words(header);
    Joined(if |words| < 2 then [] else words[2..])
  }

  predicate Bracketed(varList: string) {
    |varList| >= 2 && varList[0] == '[' && varList[|varList| - 1] == ']'
  }

  /** preprocess_block */
  function Preprocessed(header: string, body: seq<string>, texts: Texts): Result {
    var indent, varList := Indent(header), ListOf(header);
    if varList == "" then Raised(IndexError, "")
    else if !(varList[0] == '[' && varList[|varList| - 1] == ']') then Raised(AssertionError, "")
    else
      var variables := VariablesOf(SplitOn(varList[1..|varList| - 1], ','), indent);
      if variables.Unparsed? then Raised(UnpackError, "")
      else
        var front := texts.opening(indent, variables.stdout) + "\n" + variables.lines + "\n" + indent + CALL;
        var payload := Payload(body, indent);
        if payload.Raised? then Raised(payload.error, front + payload.out)
        else Printed(front + payload.out + "\"" + texts.closing(indent) + "\n")
  }

  /** The pragma line begins with blanks, so the indent is what comes before it. */
  lemma IndentIsBlank(line: string)
    requires LineStart(line) == START
    ensures Indent(line) <= line && Blank(Indent(line))
  {
    var n := Spaces(line);
    SpacesAreBlank(line);
    NoWords(line);
    var t := line[n..];
    WordHasNoSpace(t);
    assert Words(line)[0] == t[..WordLength(t)];
    hide Words, WordLength, Spaces, Find;
    FirstWordIs(Words(line), PRAGMA, " IPUpy_start");
    FindAfterBlanks(line, n, PRAGMA);
  }

  lemma NoWords(line: string)
    ensures Words(line) == [] ==> LineStart(line) == ""
  {
    hide Words;
  }

  lemma FirstWordIs(words: seq<string>, a: string, b: string)
    requires words != [] && ' ' !in words[0] && ' ' !in a && b != "" && b[0] == ' '
    requires Joined(if |words| < 2 then words else words[..2]) == a + b
    ensures words[0] == a
  {
    var rest := if |words| < 2 then "" else " " + words[1];
    TwoWords(words);
    hide Joined, FirstSpace;
    FirstSpaceOf(words[0], rest);
    FirstSpaceOf(a, b);
    EqualFronts(words[0], rest, a, b);
  }

  lemma EqualFronts(a: string, b: string, c: string, d: string)
    requires a + b == c + d && |a| == |c|
    ensures a == c
  {
    assert (a + b)[..|a|] == a && (c + d)[..|a|] == c;
  }

  lemma TwoWords(words: seq<string>)
    requires words != []
    ensures Joined(if |words| < 2 then words else words[..2]) == words[0] + if |words| < 2 then "" else " " + words[1]
  {
    if |words| >= 2 {
      assert words[..2][1..] == [words[1]];
      Assoc(words[0], " ", words[1]);
    } else {
      assert words[0] + "" == words[0];
    }
  }

  function FirstSpace(s: string): nat {
    if s == "" || s[0] == ' ' then 0 else 1 + FirstSpace(s[1..])
  }

  lemma {:induction false} FirstSpaceOf(a: string, b: string)
    requires ' ' !in a && (b == "" || b[0] == ' ')
    ensures FirstSpace(a + b) == |a|
    decreases |a|
  {
    if a == "" {
      assert a + b == b;
    } else {
      assert (a + b)[1..] == a[1..] + b && a[0] in a;
      FirstSpaceOf(a[1..], b);
    }
  }

  lemma {:induction false} FindAfterBlanks(s: string, n: nat, t: string)
    requires n <= |s| && Blank(s[..n]) && t <= s[n..] && t != "" && !IsSpace(t[0])
    ensures Find(s, t) == n
    decreases n
  {
    if n == 0 {
      assert s[0..] == s;
    } else {
      assert s[0] == s[..n][0];
      assert s[1..][..n - 1] == s[..n][1..];
      assert s[1..][n - 1..] == s[n..];
      FindAfterBlanks(s[1..], n - 1, t);
    }
  }

  /** The list of the pragma line: bracketed, with at most one '=' in each item. */
  predicate ListOk(header: string) {
    var varList := ListOf(header);
    Bracketed(varList) && AllReadable(SplitOn(varList[1..|varList| - 1], ','))
  }

  /** A block is printed exactly when its list is as it should be and all lines that are not blank
      start with its indent; otherwise it raises, for the list before anything is printed. */
  lemma PrintedWhenOk(header: string, body: seq<string>, texts: Texts)
    ensures var r, v := Preprocessed(header, body, texts), ListOf(header);
            && (r.Printed? <==> ListOk(header) && Payload(body, Indent(header)).Printed?)
            && (r.Raised? ==>
                  r.error == if v == "" then IndexError
                             else if !ListOk(header) && Bracketed(v) then UnpackError else AssertionError)
            && (!ListOk(header) ==> r.out == "")
  {
    var v := ListOf(header);
    if Bracketed(v) {
      VariablesAre(SplitOn(v[1..|v| - 1], ','), Indent(header));
    }
    PayloadRaises(body, Indent(header));
    hide Payload, Indent, ListOf, VariablesOf, SplitOn, AllReadable;
  }

  lemma {:induction false} PayloadRaises(lines: seq<string>, indent: string)
    ensures Payload(lines, indent).Raised? ==> Payload(lines, indent).error == AssertionError
    decreases |lines|
  {
    hide Escaped;
    if lines != [] {
      PayloadRaises(lines[..|lines| - 1], indent);
    }
  }

  predicate BlockOk(header: string, body: seq<string>) {
    ListOk(header) && Indented(body, Indent(header))
  }

  /** Exactly such a block is printed: the opening with the output buffer, a line for each variable,
      and the call. The literal in it reads back as the Python text, and ends where the closing text
      begins. */
  lemma BlockReadsBack(header: string, body: seq<string>, texts: Texts) returns (stdout: string, literal: string)
    requires LineStart(header) == START && forall i | 0 <= i < |body| :: '\n' !in body[i]
    ensures var indent, r := Indent(header), Preprocessed(header, body, texts);
            && (r.Printed? <==> BlockOk(header, body))
            && (r.Printed? ==> OutputOf(Items(header), stdout))
            && (r.Printed? ==>
                  r.out == texts.opening(indent, stdout) + "\n" + Flat(LinesFor(Items(header), indent)) + "\n" + indent + CALL + literal)
            && (r.Printed? ==> ReadLiteral(literal) == Literal(Dedented(body, indent), texts.closing(indent) + "\n"))
  {
    hide Preprocessed, Payload, ReadLiteral, Dedented, Indented, Indent, LineStart, ListOf, ListOk, OutputOf, LinesFor, Items;
    stdout := "";
    var indent := Indent(header);
    var after := "\"" + texts.closing(indent) + "\n";
    PayloadReadsBack(body, indent, after);
    ClosingQuote(texts.closing(indent) + "\n");
    Assoc("\"", texts.closing(indent), "\n");
    PrintedWhenOk(header, body, texts);
    literal := Payload(body, indent).out + after;
    var r := Preprocessed(header, body, texts);
    if r.Printed? {
      stdout := OutOf(header, body, texts);
    }
  }

  /** The items between the brackets of the list. */
  function Items(header: string): seq<string> {
    var varList := ListOf(header);
    if |varList| < 2 then [] else SplitOn(varList[1..|varList| - 1], ',')
  }

  /** The last variable called stdout is the output buffer; without one there is none. */
  ghost predicate OutputOf(items: seq<string>, stdout: string) {
    || (stdout == "NULL, 0" && forall i | 0 <= i < |items| :: !IsStdout(items[i]))
    || exists k | 0 <= k < |items| ::
         && IsStdout(items[k]) && (forall i | k < i < |items| :: !IsStdout(items[i]))
         && var cppname := ParseVarname(items[k]).value.cppname;
            stdout == "&" + cppname + "[0], " + cppname + ".size()"
  }

  lemma {:induction false} LastStdout(items: seq<string>, n: nat) returns (k: nat)
    requires n <= |items| && forall i | n <= i < |items| :: !IsStdout(items[i])
    ensures k <= n && (k > 0 ==> IsStdout(items[k - 1])) && forall i | k <= i < |items| :: !IsStdout(items[i])
  {
    hide IsStdout;
    if n == 0 || IsStdout(items[n - 1]) {
      k := n;
    } else {
      k := LastStdout(items, n - 1);
    }
  }

  lemma StdoutIs(items: seq<string>, indent: string)
    requires VariablesOf(items, indent).Variables?
    ensures OutputOf(items, VariablesOf(items, indent).stdout)
  {
    hide VariablesOf, IsStdout;
    var k := LastStdout(items, |items|);
    OutputIs(items, indent, k);
    if k > 0 {
      assert IsStdout(items[k - 1]);
    }
  }

  lemma OutOf(header: string, body: seq<string>, texts: Texts) returns (stdout: string)
    requires Preprocessed(header, body, texts).Printed?
    ensures OutputOf(Items(header), stdout)
    ensures var indent := Indent(header);
            Preprocessed(header, body, texts).out
            == texts.opening(indent, stdout) + "\n" + Flat(LinesFor(Items(header), indent)) + "\n" + indent
               + CALL + (Payload(body, indent).out + ("\"" + texts.closing(indent) + "\n"))
  {
    hide Payload, ListOf, VariablesOf, Indent, OutputOf, LinesFor, Flat, SplitOn;
    var indent := Indent(header);
    var varList := ListOf(header);
    var variables := VariablesOf(Items(header), indent);
    VariablesAre(Items(header), indent);
    StdoutIs(Items(header), indent);
    stdout := variables.stdout;
    var front := texts.opening(indent, variables.stdout) + "\n" + variables.lines + "\n" + indent;
    var text, closing := Payload(body, indent).out, texts.closing(indent);
    assert (front + CALL) + text + "\"" + closing + "\n"
        == front + CALL + (text + ("\"" + closing + "\n"));
  }

  lemma ClosingQuote(rest: string)
    ensures ReadLiteral("\"" + rest) == Literal("", rest)
  {
    assert ("\"" + rest)[1..] == rest;
  }

  // ---------- A file ----------

  /** The loop's state: the lines of the block it is in, what was printed, and an exception. */
  datatype State = State(block: seq<string>, out: string, error: Option<Error>)

  function Step(s: State, line: string, texts: Texts): State {
    if s.error.Some? then s
    else if s.block == [] then
      if LineStart(line) == START then s.(block := [line])
      else if LineStart(line) == END then s.(error := Some(EndOutsideBlock))
      else s.(out := s.out + (line + "\n"))
    else if LineStart(line) == END then
      var r := Preprocessed(s.block[0], s.block[1..], texts);
      State([], s.out + r.out, if r.Raised? then Some(r.error) else None)
    else s.(block := s.block + [line])
  }

  function Run(lines: seq<string>, texts: Texts): State
    decreases |lines|
  {
    if lines == [] then State([], texts.header + "\n", None)
    else Step(Run(lines[..|lines| - 1], texts), lines[|lines| - 1], texts)
  }

  function Translated(lines: seq<string>, texts: Texts): Result {
    var s := Run(lines, texts);
    if s.error.Some? then Raised(s.error.value, s.out)
    else if s.block != [] then Raised(EofInsideBlock, s.out)
    else Printed(s.out)
  }

  // ---------- A file as a document ----------

  datatype Segment = Text(line: string) | Block(header: string, body: seq<string>, end: string)

  /** How the file ends: as it should, in an end pragma without a block, or in a block. */
  datatype Tail = Complete | StrayEnd(rest: seq<string>) | Unended(header: string, body: seq<string>)

  datatype Document = Document(segments: seq<Segment>, tail: Tail)

  predicate BlockLines(header: string, body: seq<string>) {
    LineStart(header) == START && forall i | 0 <= i < |body| :: LineStart(body[i]) != END
  }

  predicate WellFormed(s: Segment) {
    match s
    case Text(line) => LineStart(line) != START && LineStart(line) != END
    case Block(header, body, end) => BlockLines(header, body) && LineStart(end) == END
  }

  predicate TailFits(t: Tail) {
    match t
    case Complete => true
    case StrayEnd(rest) => rest != [] && LineStart(rest[0]) == END
    case Unended(header, body) => BlockLines(header, body)
  }

  predicate IsDocument(d: Document) {
    TailFits(d.tail) && forall i | 0 <= i < |d.segments| :: WellFormed(d.segments[i])
  }

  function SegmentLines(s: Segment): seq<string> {
    match s
    case Text(line) => [line]
    case Block(header, body, end) => [header] + body + [end]
  }

  function LinesOf(segments: seq<Segment>): seq<string> {
    if segments == [] then [] else LinesOf(segments[..|segments| - 1]) + SegmentLines(segments[|segments| - 1])
  }

  function TailLines(t: Tail): seq<string> {
    match t
    case Complete => []
    case StrayEnd(rest) => rest
    case Unended(header, body) => [header] + body
  }

  function ParsedMore(d: Document, line: string): Document {
    match d.tail
    case Complete =>
      if LineStart(line) == START then d.(tail := Unended(line, []))
      else if LineStart(line) == END then d.(tail := StrayEnd([line]))
      else d.(segments := d.segments + [Text(line)])
    case StrayEnd(rest) => d.(tail := StrayEnd(rest + [line]))
    case Unended(header, body) =>
      if LineStart(line) == END then Document(d.segments + [Block(header, body, line)], Complete)
      else d.(tail := Unended(header, body + [line]))
  }

  function Parsed(lines: seq<string>): Document
    decreases |lines|
  {
    if lines == [] then Document([], Complete) else ParsedMore(Parsed(lines[..|lines| - 1]), lines[|lines| - 1])
  }

  lemma ParsedMoreIs(d: Document, line: string)
    requires IsDocument(d)
    ensures var d' := ParsedMore(d, line);
            IsDocument(d') && LinesOf(d'.segments) + TailLines(d'.tail) == LinesOf(d.segments) + TailLines(d.tail) + [line]
  {
    hide LineStart;
    var d' := ParsedMore(d, line);
    if d'.segments != d.segments {
      assert d'.segments[..|d'.segments| - 1] == d.segments;
    }
  }

  /** Every file is a document. */
  lemma {:induction false} EveryFileIsADocument(lines: seq<string>)
    ensures var d := Parsed(lines); IsDocument(d) && LinesOf(d.segments) + TailLines(d.tail) == lines
    decreases |lines|
  {
    hide Parsed, ParsedMore, LinesOf, TailLines, IsDocument;
    if lines == [] {
      NoLines();
    } else {
      var before, line := lines[..|lines| - 1], lines[|lines| - 1];
      EveryFileIsADocument(before);
      ParsedOneMore(before, line);
      ParsedMoreIs(Parsed(before), line);
      assert lines == before + [line];
    }
  }

  lemma NoLines()
    ensures var d := Parsed([]); IsDocument(d) && LinesOf(d.segments) + TailLines(d.tail) == []
  {
    hide LineStart;
  }

  lemma ParsedOneMore(lines: seq<string>, line: string)
    ensures Parsed(lines + [line]) == ParsedMore(Parsed(lines), line)
  {
    assert (lines + [line])[..|lines|] == lines;
  }

  lemma {:induction false} ParsedBlock(before: seq<string>, segments: seq<Segment>, header: string, body: seq<string>, k: nat)
    requires Parsed(before) == Document(segments, Complete) && BlockLines(header, body) && k <= |body|
    ensures Parsed(before + ([header] + body[..k])) == Document(segments, Unended(header, body[..k]))
    decreases k
  {
    hide LineStart, Parsed;
    if k == 0 {
      ParsedOneMore(before, header);
      assert [header] + body[..0] == [header];
    } else {
      ParsedBlock(before, segments, header, body, k - 1);
      ParsedOneMore(before + ([header] + body[..k - 1]), body[k - 1]);
      assert before + ([header] + body[..k]) == before + ([header] + body[..k - 1]) + [body[k - 1]];
      assert body[..k] == body[..k - 1] + [body[k - 1]];
    }
  }

  /** And in just one way: the segments a file was made of are the ones found. */
  lemma {:induction false} DocumentIsUnique(segments: seq<Segment>)
    requires forall i | 0 <= i < |segments| :: WellFormed(segments[i])
    ensures Parsed(LinesOf(segments)) == Document(segments, Complete)
    decreases |segments|
  {
    hide LineStart, Parsed, WellFormed;
    if segments == [] {
      NothingParsed();
    } else {
      var l := |segments| - 1;
      DocumentIsUnique(segments[..l]);
      ParsedSegment(LinesOf(segments[..l]), segments[..l], segments[l]);
      assert segments[..l] + [segments[l]] == segments;
    }
  }

  lemma ParsedSegment(before: seq<string>, segments: seq<Segment>, s: Segment)
    requires Parsed(before) == Document(segments, Complete) && WellFormed(s)
    ensures Parsed(before + SegmentLines(s)) == Document(segments + [s], Complete)
  {
    hide LineStart, Parsed;
    match s
    case Text(line) =>
      ParsedOneMore(before, line);
    case Block(header, body, end) =>
      ParsedBlock(before, segments, header, body, |body|);
      assert body[..|body|] == body;
      ParsedOneMore(before + ([header] + body), end);
      assert before + ([header] + body + [end]) == before + ([header] + body) + [end];
  }

  lemma NothingParsed()
    ensures Parsed([]) == Document([], Complete)
  {
  }

  function RenderedAfter(out: string, s: Segment, texts: Texts): Result {
    match s
    case Text(line) => Printed(out + (line + "\n"))
    case Block(header, body, _) =>
      var r := Preprocessed(header, body, texts);
      r.(out := out + r.out)
  }

  /** What a document is translated to: the header, then every line of text as it is and every
      block in its place, up to the first block that raises. */
  function Rendered(segments: seq<Segment>, texts: Texts): Result {
    if segments == [] then Printed(texts.header + "\n")
    else
      var l := |segments| - 1;
      var before := Rendered(segments[..l], texts);
      if before.Raised? then before else RenderedAfter(before.out, segments[l], texts)
  }

  function Outcome(d: Document, texts: Texts): Result {
    var r := Rendered(d.segments, texts);
    if r.Raised? || d.tail.Complete? then r
    else Raised(if d.tail.StrayEnd? then EndOutsideBlock else EofInsideBlock, r.out)
  }

  /** The loop's state after a document. */
  ghost predicate Follows(s: State, d: Document, texts: Texts) {
    var r := Rendered(d.segments, texts);
    && s.out == r.out
    && (r.Raised? ==> s.error == Some(r.error))
    && (r.Printed? ==> s.error == (if d.tail.StrayEnd? then Some(EndOutsideBlock) else None))
    && (r.Printed? && !d.tail.StrayEnd? ==> s.block == TailLines(d.tail))
  }

  lemma StepFollows(s: State, d: Document, line: string, texts: Texts)
    requires Follows(s, d, texts)
    ensures Follows(Step(s, line, texts), ParsedMore(d, line), texts)
  {
    hide LineStart, Preprocessed, Rendered;
    match d.tail
    case Complete =>
      RenderedMore(d.segments, Text(line), texts);
    case StrayEnd(_) =>
    case Unended(header, body) =>
      RenderedMore(d.segments, Block(header, body, line), texts);
      assert ([header] + body)[1..] == body;
  }

  lemma RenderedMore(segments: seq<Segment>, s: Segment, texts: Texts)
    ensures var before := Rendered(segments, texts);
            Rendered(segments + [s], texts)
            == if before.Raised? then before else RenderedAfter(before.out, s, texts)
  {
    hide RenderedAfter;
    assert (segments + [s])[..|segments|] == segments;
  }

  lemma {:induction false} RunFollows(lines: seq<string>, texts: Texts)
    ensures Follows(Run(lines, texts), Parsed(lines), texts)
    decreases |lines|
  {
    hide Step, ParsedMore, Rendered;
    if lines == [] {
      NothingRendered(texts);
    } else {
      RunFollows(lines[..|lines| - 1], texts);
      StepFollows(Run(lines[..|lines| - 1], texts), Parsed(lines[..|lines| - 1]), lines[|lines| - 1], texts);
    }
  }

  lemma NothingRendered(texts: Texts)
    ensures Rendered([], texts) == Printed(texts.header + "\n")
  {
  }

  /** The translator does to every file what its document says. */
  lemma TranslatesEveryDocument(lines: seq<string>, texts: Texts)
    ensures IsDocument(Parsed(lines)) && Translated(lines, texts) == Outcome(Parsed(lines), texts)
  {
    hide Run, Parsed, Rendered, LineStart;
    EveryFileIsADocument(lines);
    RunFollows(lines, texts);
  }

  /** The lines of a file hold no newline. */
  predicate OneLiners(segments: seq<Segment>) {
    forall i, line | 0 <= i < |segments| && line in SegmentLines(segments[i]) :: '\n' !in line
  }

  predicate SegmentOk(s: Segment) {
    s.Block? ==> BlockOk(s.header, s.body)
  }

  /** What a segment is translated to. */
  function SegmentText(s: Segment, texts: Texts): string {
    match s
    case Text(line) => line + "\n"
    case Block(header, body, _) => Preprocessed(header, body, texts).out
  }

  function SegmentTexts(segments: seq<Segment>, texts: Texts): seq<string> {
    seq(|segments|, i requires 0 <= i < |segments| => SegmentText(segments[i], texts))
  }

  /** Everything is printed, in order, exactly when every block is as it should be. */
  lemma {:induction false} RenderedWhenOk(segments: seq<Segment>, texts: Texts)
    requires OneLiners(segments) && forall i | 0 <= i < |segments| :: WellFormed(segments[i])
    ensures var r := Rendered(segments, texts);
            && (r.Printed? <==> forall i | 0 <= i < |segments| :: SegmentOk(segments[i]))
            && (r.Printed? ==> r.out == texts.header + "\n" + Flat(SegmentTexts(segments, texts)))
    decreases |segments|
  {
    hide LineStart, Preprocessed, BlockOk, Flat;
    if segments == [] {
      FlatNothing<char>();
      assert SegmentTexts([], texts) == [];
      assert texts.header + "\n" + "" == texts.header + "\n";
    } else {
      var l := |segments| - 1;
      var before, s := segments[..l], segments[l];
      assert segments == before + [s];
      forall i, line | 0 <= i < l && line in SegmentLines(before[i]) ensures '\n' !in line {
        assert line in SegmentLines(segments[i]);
      }
      RenderedWhenOk(before, texts);
      SegmentWhenOk(s, texts);
      SegmentTextsMore(before, s, texts);
      Assoc(texts.header + "\n", Flat(SegmentTexts(before, texts)), SegmentText(s, texts));
      assert (forall i | 0 <= i < |segments| :: SegmentOk(segments[i])) <==>
             (forall i | 0 <= i < l :: SegmentOk(before[i])) && SegmentOk(s);
    }
  }

  lemma FlatNothing<T>()
    ensures Flat<T>([]) == []
  {
  }

  lemma SegmentTextsMore(segments: seq<Segment>, s: Segment, texts: Texts)
    ensures Flat(SegmentTexts(segments + [s], texts)) == Flat(SegmentTexts(segments, texts)) + SegmentText(s, texts)
  {
    hide Flat, SegmentText;
    assert SegmentTexts(segments + [s], texts) == SegmentTexts(segments, texts) + [SegmentText(s, texts)];
    FlatConcat(SegmentTexts(segments, texts), [SegmentText(s, texts)]);
    FlatOne(SegmentText(s, texts));
  }

  lemma SegmentWhenOk(s: Segment, texts: Texts)
    requires WellFormed(s) && forall line | line in SegmentLines(s) :: '\n' !in line
    ensures s.Block? ==> (Preprocessed(s.header, s.body, texts).Printed? <==> SegmentOk(s))
  {
    hide LineStart, Preprocessed, BlockOk;
    match s
    case Text(_) =>
    case Block(header, body, end) =>
      forall i | 0 <= i < |body| ensures '\n' !in body[i] {
        assert body[i] in SegmentLines(s);
      }
      var _, _ := BlockReadsBack(header, body, texts);
  }

  /** For every file: it is translated without an exception exactly when it is a document to its
      end whose blocks are as they should be; and then to the header, its text lines as they are,
      and its blocks, each in its place. */
  lemma TranslatesWellFormedFiles(lines: seq<string>, texts: Texts)
    requires forall i | 0 <= i < |lines| :: '\n' !in lines[i]
    ensures var d, r := Parsed(lines), Translated(lines, texts);
            && (r.Printed? <==> d.tail.Complete? && forall i | 0 <= i < |d.segments| :: SegmentOk(d.segments[i]))
            && (r.Printed? ==> r.out == texts.header + "\n" + Flat(SegmentTexts(d.segments, texts)))
  {
    var d := Parsed(lines);
    TranslatesEveryDocument(lines, texts);
    EveryFileIsADocument(lines);
    hide Parsed, Translated, Rendered, LineStart, BlockOk, Flat;
    LinesOfAll(d.segments);
    forall i, line | 0 <= i < |d.segments| && line in SegmentLines(d.segments[i]) ensures '\n' !in line {
      assert line in LinesOf(d.segments) + TailLines(d.tail);
    }
    RenderedWhenOk(d.segments, texts);
  }

  /** A file without pragmas comes out as it is, behind the header. */
  lemma PlainFilesPass(lines: seq<string>, texts: Texts)
    requires forall i | 0 <= i < |lines| :: '\n' !in lines[i] && LineStart(lines[i]) != START && LineStart(lines[i]) != END
    ensures Translated(lines, texts) == Printed(texts.header + "\n" + Flat(seq(|lines|, i requires 0 <= i < |lines| => lines[i] + "\n")))
  {
    hide LineStart, Translated, Parsed, Flat;
    var segments := seq(|lines|, i requires 0 <= i < |lines| => Text(lines[i]));
    LinesOfTexts(lines);
    DocumentIsUnique(segments);
    TranslatesWellFormedFiles(lines, texts);
    assert SegmentTexts(segments, texts) == seq(|lines|, i requires 0 <= i < |lines| => lines[i] + "\n");
  }

  lemma {:induction false} LinesOfTexts(lines: seq<string>)
    ensures LinesOf(seq(|lines|, i requires 0 <= i < |lines| => Text(lines[i]))) == lines
    decreases |lines|
  {
    var segments := seq(|lines|, i requires 0 <= i < |lines| => Text(lines[i]));
    if lines != [] {
      var l := |lines| - 1;
      LinesOfTexts(lines[..l]);
      assert segments[..l] == seq(l, i requires 0 <= i < l => Text(lines[..l][i]));
      assert lines[..l] + [lines[l]] == lines;
    }
  }

  lemma {:induction false} LinesOfAll(segments: seq<Segment>)
    ensures forall i, line | 0 <= i < |segments| && line in SegmentLines(segments[i]) :: line in LinesOf(segments)
    decreases |segments|
  {
    hide SegmentLines;
    if segments != [] {
      var l := |segments| - 1;
      LinesOfAll(segments[..l]);
      forall i, line | 0 <= i < |segments| && line in SegmentLines(segments[i]) ensures line in LinesOf(segments) {
        if i < l {
          assert segments[..l][i] == segments[i];
        }
      }
    }
  }

  // ---------- The program ----------

  /** An indent has nothing to escape, so it can be cut off after the replacements. */
  lemma {:induction false} EscapedIndent(indent: string, rest: string)
    requires Blank(indent)
    ensures Escaped(indent + rest) == indent + Escaped(rest)
    decreases |indent|
  {
    if indent == "" {
      assert indent + rest == rest;
    } else {
      EscapedFront(indent + rest);
      assert (indent + rest)[1..] == indent[1..] + rest;
      EscapedIndent(indent[1..], rest);
      hide Escaped;
      assert indent == [indent[0]] + indent[1..];
    }
  }

  lemma PayloadMore(lines: seq<string>, k: nat, indent: string)
    requires k < |lines|
    ensures var before := Payload(lines[..k], indent);
            Payload(lines[..k + 1], indent)
            == if before.Raised? || Blank(lines[k]) then before
               else if !(indent <= lines[k]) then Raised(AssertionError, before.out)
               else Printed(before.out + (Escaped(lines[k][|indent|..]) + "\\n"))
  {
    hide Escaped;
    assert lines[..k + 1][..k] == lines[..k];
  }

  lemma {:induction false} PayloadStays(lines: seq<string>, k: nat, indent: string)
    requires k <= |lines| && Payload(lines[..k], indent).Raised?
    ensures Payload(lines, indent) == Payload(lines[..k], indent)
    decreases |lines|
  {
    hide Escaped;
    if k < |lines| {
      assert lines[..|lines| - 1][..k] == lines[..k];
      PayloadStays(lines[..|lines| - 1], k, indent);
    } else {
      assert lines[..k] == lines;
    }
  }

  /** The printing loop of preprocess_block. */
  method PrintPayload(lines: seq<string>, indent: string) returns (r: Result)
    requires Blank(indent)
    ensures r == Payload(lines, indent)
  {
    var out := "";
    var k := 0;
    hide Payload, Escaped, Blank;
    NoPayload(indent);
    while k < |lines|
      invariant k <= |lines| && Payload(lines[..k], indent) == Printed(out)
    {
      PayloadMore(lines, k, indent);
      var line := lines[k];
      k := k + 1;
      if !Blank(line) {
        if !(indent <= line) {
          PayloadStays(lines, k, indent);
          return Raised(AssertionError, out);
        }
        EscapedIndent(indent, line[|indent|..]);
        assert indent + line[|indent|..] == line;
        var escaped := Escaped(line);
        out := out + (escaped[|indent|..] + "\\n");
      }
    }
    assert lines[..k] == lines;
    r := Printed(out);
  }

  lemma NoPayload(indent: string)
    ensures Payload([], indent) == Printed("")
  {
  }

  lemma VariablesMore(items: seq<string>, k: nat, indent: string)
    requires k < |items|
    ensures var so, v := VariablesOf(items[..k], indent), ParseVarname(items[k]);
            VariablesOf(items[..k + 1], indent)
            == if so.Unparsed? || v.None? then Unparsed
               else if v.value.pyname == "stdout" then so.(stdout := "&" + v.value.cppname + "[0], " + v.value.cppname + ".size()")
               else so.(lines := so.lines + VariableLine(v.value, indent) + "\n")
  {
    hide ParseVarname, VariableLine;
    assert items[..k + 1][..k] == items[..k];
  }

  lemma {:induction false} UnparsedStays(items: seq<string>, k: nat, indent: string)
    requires k <= |items| && VariablesOf(items[..k], indent).Unparsed?
    ensures VariablesOf(items, indent).Unparsed?
    decreases |items|
  {
    hide ParseVarname, VariableLine;
    if k < |items| {
      assert items[..|items| - 1][..k] == items[..k];
      UnparsedStays(items[..|items| - 1], k, indent);
    } else {
      assert items[..k] == items;
    }
  }

  /** The loop over the items of the list. */
  method ReadVariables(items: seq<string>, indent: string) returns (r: Variables)
    ensures r == VariablesOf(items, indent)
    ensures r.Variables? <==> AllReadable(items)
    ensures r.Variables? ==> r.lines == Flat(LinesFor(items, indent))
  {
    VariablesAre(items, indent);
    var lines, stdout := "", "NULL, 0";
    var k := 0;
    NoVariables(indent);
    hide ParseVarname, VariableLine, VariablesOf, AllReadable, LinesFor;
    while k < |items|
      invariant k <= |items| && VariablesOf(items[..k], indent) == Variables(lines, stdout)
    {
      VariablesMore(items, k, indent);
      var parsed := ParseVarname(items[k]);
      k := k + 1;
      if parsed.None? {
        UnparsedStays(items, k, indent);
        return Unparsed;
      }
      var v := parsed.value;
      if v.pyname == "stdout" {
        stdout := "&" + v.cppname + "[0], " + v.cppname + ".size()";
      } else {
        lines := lines + VariableLine(v, indent) + "\n";
      }
    }
    assert items[..k] == items;
    r := Variables(lines, stdout);
  }

  lemma NoVariables(indent: string)
    ensures VariablesOf([], indent) == Variables("", "NULL, 0")
  {
  }

  method PreprocessBlock(block: seq<string>, texts: Texts) returns (r: Result)
    requires block != [] && LineStart(block[0]) == START
    ensures r == Preprocessed(block[0], block[1..], texts)
  {
    hide LineStart, ListOf, Indent, VariablesOf, Payload, Blank, SplitOn;
    var header, lines := block[0], block[1..];
    IndentIsBlank(header);
    var indent := Indent(header);
    var varList := ListOf(header);
    if varList == "" {
      return Raised(IndexError, "");
    }
    if !(varList[0] == '[' && varList[|varList| - 1] == ']') {
      return Raised(AssertionError, "");
    }
    var variables := ReadVariables(SplitOn(varList[1..|varList| - 1], ','), indent);
    if variables.Unparsed? {
      return Raised(UnpackError, "");
    }
    var out := texts.opening(indent, variables.stdout) + "\n" + variables.lines + "\n" + indent + CALL;
    var payload := PrintPayload(lines, indent);
    if payload.Raised? {
      return Raised(payload.error, out + payload.out);
    }
    r := Printed(out + payload.out + "\"" + texts.closing(indent) + "\n");
  }

  method Translate(lines: seq<string>, texts: Texts) returns (r: Result)
    ensures r == Translated(lines, texts)
    ensures IsDocument(Parsed(lines)) && r == Outcome(Parsed(lines), texts)
  {
    TranslatesEveryDocument(lines, texts);
    var currentBlock: seq<string> := [];
    var out := texts.header + "\n";
    var k := 0;
    NothingRun(texts);
    hide Run, LineStart, Preprocessed, Outcome, Parsed, IsDocument;
    while k < |lines|
      invariant k <= |lines| && Run(lines[..k], texts) == State(currentBlock, out, None)
      invariant currentBlock != [] ==> LineStart(currentBlock[0]) == START
    {
      RunMore(lines, k, texts);
      var line := lines[k];
      k := k + 1;
      var lineStart := LineStart(line);
      if currentBlock == [] {
        if lineStart == START {
          currentBlock := [line];
        } else if lineStart == END {
          RunStays(lines, k, texts);
          return Raised(EndOutsideBlock, out);
        } else {
          out := out + (line + "\n");
        }
      } else if lineStart == END {
        var result := PreprocessBlock(currentBlock, texts);
        out := out + result.out;
        currentBlock := [];
        if result.Raised? {
          RunStays(lines, k, texts);
          return Raised(result.error, out);
        }
      } else {
        currentBlock := currentBlock + [line];
      }
    }
    assert lines[..k] == lines;
    if currentBlock != [] {
      return Raised(EofInsideBlock, out);
    }
    r := Printed(out);
  }

  lemma NothingRun(texts: Texts)
    ensures Run([], texts) == State([], texts.header + "\n", None)
  {
  }

  lemma RunMore(lines: seq<string>, k: nat, texts: Texts)
    requires k < |lines|
    ensures Run(lines[..k + 1], texts) == Step(Run(lines[..k], texts), lines[k], texts)
  {
    hide Step;
    assert lines[..k + 1][..k] == lines[..k];
  }

  lemma {:induction false} RunStays(lines: seq<string>, k: nat, texts: Texts)
    requires k <= |lines| && Run(lines[..k], texts).error.Some?
    ensures Run(lines, texts) == Run(lines[..k], texts)
    decreases |lines|
  {
    hide LineStart, Preprocessed;
    if k < |lines| {
      assert lines[..|lines| - 1][..k] == lines[..k];
      RunStays(lines[..|lines| - 1], k, texts);
    } else {
      assert lines[..k] == lines;
    }
  }
}
