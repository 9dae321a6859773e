/**
 The `.env.local` reader of the operator scripts (scripts/bootstrap-schema.ts).
 */
module EnvFile {
  import opened Sequences

  type Vars = map<string, string>

  datatype Binding = Binding(key: string, value: string)

  // ---------------------------------------------------------------------------------------------
  // String built-ins of the host language
  // ---------------------------------------------------------------------------------------------

  /** ECMAScript white space and line terminators: what `trim` removes. */
  predicate IsSpace(c: char) {
    c in {'\t', '\n', '\r', ' ', '\U{0B}', '\U{0C}', '\U{A0}', '\U{1680}', '\U{2028}', '\U{2029}',
          '\U{202F}', '\U{205F}', '\U{3000}', '\U{FEFF}'}
    || '\U{2000}' <= c <= '\U{200A}'
  }

  function TrimStart(s: string): string {
    if s != "" && IsSpace(s[0]) then TrimStart(s[1..]) else s
  }

  function TrimEnd(s: string): string {
    if s != "" && IsSpace(s[|s| - 1]) then TrimEnd(s[..|s| - 1]) else s
  }

  function Trim(s: string): string { TrimEnd(TrimStart(s)) }

  function WithoutCr(s: string): string {
    if s != "" && s[|s| - 1] == '\r' then s[..|s| - 1] else s
  }

  /** `text.split(/\r?\n/)` */
  function Lines(text: string): seq<string> {
    var i := Find(text, '\n');
    if i == |text| then [text] else [WithoutCr(text[..i])] + Lines(text[i + 1..])
  }

  // ---------------------------------------------------------------------------------------------
  // One line
  // ---------------------------------------------------------------------------------------------

  predicate Quoted(v: string) {
    v != "" && v[0] == v[|v| - 1] && v[0] in {'"', '\''}
  }

  /** `slice(1, -1)` of a quoted value; a value that is one lone quote is both its ends and becomes empty. */
  function Unquote(v: string): string {
    if !Quoted(v) then v else if |v| == 1 then "" else v[1..|v| - 1]
  }

  function ParseTrimmed(line: string): Option<Binding> {
    var eq := Find(line, '=');
    if line == "" || line[0] == '#' || eq == 0 || eq == |line| then None
    else Some(Binding(Trim(line[..eq]), Unquote(Trim(line[eq + 1..]))))
  }

  function ParseLine(raw: string): Option<Binding> { ParseTrimmed(Trim(raw)) }

  function BindingsOf(lines: seq<string>): seq<Binding> { FilterMap(ParseLine, lines) }

  function Bindings(text: string): seq<Binding> { BindingsOf(Lines(text)) }

  // ---------------------------------------------------------------------------------------------
  // Overlaying the environment
  // ---------------------------------------------------------------------------------------------

  /** `process.env` is an object: reading one of these names finds an inherited member even when no such variable is set. */
  const INHERITED: set<string> := {
    "constructor", "__defineGetter__", "__defineSetter__", "hasOwnProperty", "__lookupGetter__", "__lookupSetter__",
    "isPrototypeOf", "propertyIsEnumerable", "toString", "valueOf", "__proto__", "toLocaleString"}

  /** `process.env[key] !== undefined` */
  predicate Defined(vars: Vars, key: string) { key in vars || key in INHERITED }

  function FirstBinding(bs: seq<Binding>, key: string): Option<string> {
    if bs == [] then None
    else if bs[0].key == key then Some(bs[0].value)
    else FirstBinding(bs[1..], key)
  }

  /** `after` is `before` overlaid by `bs` under "existing wins, then first binding wins". */
  ghost predicate Overlaid(before: Vars, bs: seq<Binding>, after: Vars) {
    forall key ::
      && (key in after <==> key in before || (!Defined(before, key) && FirstBinding(bs, key).Some?))
      && (key in before ==> after[key] == before[key])
      && (key in after && key !in before ==> Some(after[key]) == FirstBinding(bs, key))
  }

  lemma OverlayOne(before: Vars, bs: seq<Binding>, vars: Vars, b: Binding)
    requires Overlaid(before, bs, vars)
    ensures Overlaid(before, bs + [b], if Defined(vars, b.key) then vars else vars[b.key := b.value])
  {
    FirstBindingAppend(bs, b);
  }

  /** One pass of the loop up to the write; `None` is `continue`. */
  method ReadLine(raw: string) returns (b: Option<Binding>)
    ensures b == ParseLine(raw)
  {
    var line := Trim(raw);
    if |line| == 0 || line[0] == '#' { return None; }
    var eq := Find(line, '=');
    if eq == 0 || eq == |line| { return None; }
    var key := Trim(line[..eq]);
    var value := Trim(line[eq + 1..]);
    if Quoted(value) {
      value := if |value| == 1 then "" else value[1..|value| - 1];
    }
    return Some(Binding(key, value));
  }

  class ProcessEnv {
    var vars: Vars

    method LoadEnvLocal(file: Option<string>)
      modifies this
      ensures file.None? ==> vars == old(vars)
      ensures file.Some? ==> Overlaid(old(vars), Bindings(file.value), vars)
    {
      if file.None? { return; }
      var lines := Lines(file.value);
      for i := 0 to |lines|
        invariant Overlaid(old(vars), BindingsOf(lines[..i]), vars)
      {
        FilterMapNext(ParseLine, lines, i);
        var b := ReadLine(lines[i]);
        if b.None? { continue; }
        OverlayOne(old(vars), BindingsOf(lines[..i]), vars, b.value);
        if !Defined(vars, b.value.key) { vars := vars[b.value.key := b.value.value]; }
      }
      assert lines[..|lines|] == lines;
    }
  }

  lemma {:induction false} FirstBindingAppend(bs: seq<Binding>, b: Binding)
    ensures forall key :: FirstBinding(bs + [b], key) ==
              if FirstBinding(bs, key).Some? then FirstBinding(bs, key)
              else if key == b.key then Some(b.value) else None
  {
    if bs == [] {
      assert bs + [b] == [b];
    } else {
      assert (bs + [b])[1..] == bs[1..] + [b];
      FirstBindingAppend(bs[1..], b);
    }
  }

  // ---------------------------------------------------------------------------------------------
  // What loading does to the environment
  // ---------------------------------------------------------------------------------------------

  ghost predicate Trimmed(s: string) { s != "" ==> !IsSpace(s[0]) && !IsSpace(s[|s| - 1]) }

  ghost predicate LoadableKey(key: string) {
    key != "" && Trimmed(key) && '=' !in key && key[0] != '#'
  }

  lemma {:induction false} TrimStartFacts(s: string)
    ensures TrimStart(s) == "" || !IsSpace(TrimStart(s)[0])
    ensures |TrimStart(s)| <= |s|
    ensures |TrimStart(s)| == |s| <==> s == "" || !IsSpace(s[0])
  {
    if s != "" && IsSpace(s[0]) { TrimStartFacts(s[1..]); }
  }

  lemma {:induction false} TrimEndFacts(s: string)
    ensures TrimEnd(s) <= s && forall i :: |TrimEnd(s)| <= i < |s| ==> IsSpace(s[i])
    ensures TrimEnd(s) == "" || !IsSpace(TrimEnd(s)[|TrimEnd(s)| - 1])
  {
    if s != "" && IsSpace(s[|s| - 1]) { TrimEndFacts(s[..|s| - 1]); }
  }

  /** What `trim` leaves has no space at either end, and a text is left alone exactly when it has none. */
  lemma TrimFacts(s: string)
    ensures Trimmed(Trim(s))
    ensures |Trim(s)| <= |s| && (Trim(s) == s <==> Trimmed(s))
    ensures s != "" && !IsSpace(s[0]) ==> Trim(s) != "" && Trim(s) <= s
  {
    TrimStartFacts(s);
    TrimEndFacts(TrimStart(s));
  }

  lemma ParsedKey(raw: string)
    requires ParseLine(raw).Some?
    ensures LoadableKey(ParseLine(raw).value.key)
  {
    var line := Trim(raw);
    TrimFacts(raw);
    TrimFacts(line[..Find(line, '=')]);
  }

  lemma {:induction false} FirstBindingIsOne(bs: seq<Binding>, key: string)
    ensures match FirstBinding(bs, key)
            case None => forall b :: b in bs ==> b.key != key
            case Some(value) => Binding(key, value) in bs
  {
    if bs != [] && bs[0].key != key {
      FirstBindingIsOne(bs[1..], key);
      assert bs == [bs[0]] + bs[1..];
    }
  }

  lemma BoundKey(lines: seq<string>, key: string)
    requires FirstBinding(BindingsOf(lines), key).Some?
    ensures LoadableKey(key)
  {
    var b := Binding(key, FirstBinding(BindingsOf(lines), key).value);
    FirstBindingIsOne(BindingsOf(lines), key);
    FilterMapOrigin(ParseLine, lines, b);
    var raw :| raw in lines && ParseLine(raw) == Some(b);
    ParsedKey(raw);
  }

  /** Loading never touches a variable that is there, and what it adds has a loadable, not inherited name. */
  lemma OnlyAdds(before: Vars, text: string, after: Vars, key: string)
    requires Overlaid(before, Bindings(text), after)
    ensures key in before ==> key in after && after[key] == before[key]
    ensures key in after && key !in before ==> LoadableKey(key) && key !in INHERITED
  {
    if key in after && key !in before {
      BoundKey(Lines(text), key);
    }
  }

  /** Loading the same file again changes nothing. */
  lemma LoadingIsIdempotent(before: Vars, text: string, once: Vars, twice: Vars)
    requires Overlaid(before, Bindings(text), once) && Overlaid(once, Bindings(text), twice)
    ensures twice == once
  {
  }

  // ---------------------------------------------------------------------------------------------
  // Writing a file that reads back
  // ---------------------------------------------------------------------------------------------

  datatype Quoting = Plain | Single | Double

  /** What may be written on a line; the `pad`s are white space around the parts. */
  datatype Item =
    | Blank(pad: string)
    | Comment(pad: string, text: string)
    | Assignment(pad: string, key: string, pad1: string, pad2: string, value: string, quoting: Quoting, pad3: string)

  /** A line and whether it ends in CRLF rather than LF. */
  datatype Line = Line(item: Item, crlf: bool)

  function InQuotes(value: string, quoting: Quoting): string {
    match quoting case Plain => value case Single => "'" + value + "'" case Double => "\"" + value + "\""
  }

  function Text(item: Item): string {
    match item
    case Blank(pad) => pad
    case Comment(pad, text) => pad + "#" + text
    case Assignment(pad, key, pad1, pad2, value, quoting, pad3) =>
      pad + (key + (pad1 + "=" + (pad2 + InQuotes(value, quoting) + pad3)))
  }

  function Bound(item: Item): Option<Binding> {
    if item.Assignment? then Some(Binding(item.key, item.value)) else None
  }

  /** The file; the last line may be left without its end. */
  function Document(lines: seq<Line>, closed: bool): string {
    if lines == [] then ""
    else if |lines| == 1 && !closed then Text(lines[0].item)
    else Text(lines[0].item) + (if lines[0].crlf then "\r\n" else "\n") + Document(lines[1..], closed)
  }

  ghost predicate Spaces(s: string) { '\n' !in s && forall i :: 0 <= i < |s| ==> IsSpace(s[i]) }

  /** Quoted values are free but for the newline; a plain one must be trimmed and not look quoted. */
  ghost predicate Writable(item: Item) {
    Spaces(item.pad) &&
    match item
    case Blank(_) => true
    case Comment(_, text) => '\n' !in text
    case Assignment(_, key, pad1, pad2, value, quoting, pad3) =>
      && LoadableKey(key) && '\n' !in key && '\n' !in value
      && Spaces(pad1) && Spaces(pad2) && Spaces(pad3)
      && (quoting.Plain? ==> Trimmed(value) && !Quoted(value))
  }

  lemma {:induction false} TrimStartBehind(pad: string, s: string)
    requires Spaces(pad)
    ensures TrimStart(pad + s) == TrimStart(s)
  {
    if pad == "" {
      assert pad + s == s;
    } else {
      assert (pad + s)[1..] == pad[1..] + s;
      TrimStartBehind(pad[1..], s);
    }
  }

  lemma {:induction false} TrimEndBefore(s: string, pad: string)
    requires Spaces(pad)
    ensures TrimEnd(s + pad) == TrimEnd(s)
  {
    if pad == "" {
      assert s + pad == s;
    } else {
      assert (s + pad)[..|s + pad| - 1] == s + pad[..|pad| - 1];
      TrimEndBefore(s, pad[..|pad| - 1]);
    }
  }

  lemma TrimPadded(pad: string, s: string, pad': string)
    requires Spaces(pad) && Spaces(pad') && Trimmed(s)
    ensures Trim(pad + s + pad') == s
  {
    assert pad + s + pad' == pad + (s + pad');
    TrimStartBehind(pad, s + pad');
    if s == "" {
      assert s + pad' == pad' + "";
      TrimStartBehind(pad', "");
    } else {
      assert (s + pad')[0] == s[0];
      TrimEndBefore(s, pad');
    }
  }

  lemma {:induction false} TrimEndBehind(a: string, b: string)
    requires a != "" && !IsSpace(a[|a| - 1])
    ensures TrimEnd(a + b) == a + TrimEnd(b)
  {
    if b == "" {
      assert a + b == a;
    } else {
      assert (a + b)[..|a + b| - 1] == a + b[..|b| - 1];
      if IsSpace(b[|b| - 1]) { TrimEndBehind(a, b[..|b| - 1]); }
    }
  }

  lemma {:induction false} TrimDropLast(s: string)
    requires s != "" && IsSpace(s[|s| - 1])
    ensures Trim(s) == Trim(s[..|s| - 1])
  {
    var t := s[..|s| - 1];
    if |s| == 1 {
      assert TrimStart(s) == TrimStart("") == t;
    } else if IsSpace(s[0]) {
      assert s[1..][..|s| - 2] == t[1..];
      TrimDropLast(s[1..]);
      assert TrimStart(s) == TrimStart(s[1..]) && TrimStart(t) == TrimStart(t[1..]);
    } else {
      assert TrimStart(s) == s && TrimStart(t) == t;
    }
  }

  lemma {:induction false} TrimOfTrimEnd(s: string)
    ensures Trim(TrimEnd(s)) == Trim(s)
    decreases |s|
  {
    if s != "" && IsSpace(s[|s| - 1]) {
      TrimOfTrimEnd(s[..|s| - 1]);
      TrimDropLast(s);
    }
  }

  lemma TrimStartKept(key: string, rest: string)
    requires LoadableKey(key)
    ensures TrimStart(key + rest) == key + rest
  {
    assert (key + rest)[0] == key[0];
  }

  lemma TrimAssignment(pad: string, key: string, pad1: string, written: string)
    requires Spaces(pad) && LoadableKey(key)
    ensures Trim(pad + (key + (pad1 + "=" + written))) == key + pad1 + "=" + TrimEnd(written)
  {
    var left := key + pad1 + "=";
    assert key + (pad1 + "=" + written) == left + written;
    TrimStartBehind(pad, left + written);
    TrimStartKept(key, pad1 + "=" + written);
    assert left[|left| - 1] == '=' && !IsSpace('=');
    TrimEndBehind(left, written);
  }

  lemma NoEquals(key: string, pad: string)
    requires '=' !in key && Spaces(pad)
    ensures '=' !in key + pad
  {
    assert !IsSpace('=');
  }

  lemma ParseAssignment(pad: string, key: string, pad1: string, written: string)
    requires Spaces(pad) && Spaces(pad1) && LoadableKey(key)
    ensures ParseLine(pad + (key + (pad1 + "=" + written))) == Some(Binding(key, Unquote(Trim(written))))
  {
    TrimAssignment(pad, key, pad1, written);
    var left, line := key + pad1, key + pad1 + "=" + TrimEnd(written);
    assert line[..|left|] == left && line[|left| + 1..] == TrimEnd(written);
    NoEquals(key, pad1);
    FindAt(line, '=', |left|);
    assert "" + key + pad1 == left;
    TrimPadded("", key, pad1);
    TrimOfTrimEnd(written);
    assert ParseTrimmed(line) == Some(Binding(Trim(left), Unquote(Trim(TrimEnd(written)))));
  }

  lemma UnquoteWritten(value: string, quoting: Quoting)
    requires quoting.Plain? ==> Trimmed(value) && !Quoted(value)
    ensures Trimmed(InQuotes(value, quoting)) && Unquote(InQuotes(value, quoting)) == value
  {
    var w := InQuotes(value, quoting);
    assert !IsSpace('"') && !IsSpace('\'');
    if !quoting.Plain? { assert w[1..|w| - 1] == value; }
  }

  /** Every written line parses to what was meant. */
  lemma ParseText(item: Item)
    requires Writable(item)
    ensures ParseLine(Text(item)) == Bound(item)
  {
    match item
    case Blank(pad) =>
      assert pad + "" + "" == pad && Spaces("");
      TrimPadded(pad, "", "");
    case Comment(pad, text) =>
      assert !IsSpace('#');
      var hash := "#" + text;
      assert Text(item) == pad + hash;
      TrimStartBehind(pad, hash);
      assert hash[0] == '#' && TrimStart(hash) == hash;
      TrimEndBehind("#", text);
    case Assignment(pad, key, pad1, pad2, value, quoting, pad3) =>
      ParseAssignment(pad, key, pad1, pad2 + InQuotes(value, quoting) + pad3);
      UnquoteWritten(value, quoting);
      TrimPadded(pad2, InQuotes(value, quoting), pad3);
  }

  lemma NoNewlineConcat(a: string, b: string)
    requires '\n' !in a && '\n' !in b
    ensures '\n' !in a + b
  {
  }

  lemma TextHasNoNewline(item: Item)
    requires Writable(item)
    ensures '\n' !in Text(item)
  {
    match item
    case Blank(pad) =>
    case Comment(pad, text) =>
      NoNewlineConcat("#", text);
      assert Text(item) == pad + ("#" + text);
    case Assignment(pad, key, pad1, pad2, value, quoting, pad3) =>
      assert '\n' !in InQuotes(value, quoting);
      NoNewlineConcat(pad2, InQuotes(value, quoting));
      NoNewlineConcat(pad2 + InQuotes(value, quoting), pad3);
      NoNewlineConcat(pad1 + "=", pad2 + InQuotes(value, quoting) + pad3);
      NoNewlineConcat(key, pad1 + "=" + (pad2 + InQuotes(value, quoting) + pad3));
  }

  lemma LinesFirst(a: string, rest: string)
    requires '\n' !in a
    ensures Lines(a + "\n" + rest) == [WithoutCr(a)] + Lines(rest)
  {
    var text := a + "\n" + rest;
    assert text[..|a|] == a && text[|a|] == '\n' && text[|a| + 1..] == rest;
    FindAt(text, '\n', |a|);
  }

  lemma LinesLast(a: string)
    requires '\n' !in a
    ensures Lines(a) == [a]
  {
  }

  lemma ParseWithoutCr(a: string)
    ensures ParseLine(WithoutCr(a)) == ParseLine(a)
  {
    if a != "" && a[|a| - 1] == '\r' {
      assert IsSpace('\r');
      TrimDropLast(a);
    }
  }

  lemma BindingsOfFirst(line: string, lines: seq<string>)
    ensures BindingsOf([line] + lines) ==
              (match ParseLine(line) case None => [] case Some(b) => [b]) + BindingsOf(lines)
  {
    assert ([line] + lines)[1..] == lines;
  }

  /** What the reader makes of a line that is ended, and of the rest. */
  lemma EndedLine(text: string, crlf: bool, rest: string)
    requires '\n' !in text
    ensures Bindings(text + (if crlf then "\r\n" else "\n") + rest) ==
              (match ParseLine(text) case None => [] case Some(b) => [b]) + Bindings(rest)
  {
    var a := if crlf then text + "\r" else text;
    assert text + (if crlf then "\r\n" else "\n") + rest == a + "\n" + rest;
    LinesFirst(a, rest);
    ParseWithoutCr(a);
    assert crlf ==> WithoutCr(a) == text;
    BindingsOfFirst(WithoutCr(a), Lines(rest));
  }

  lemma OpenLine(text: string)
    requires '\n' !in text
    ensures Bindings(text) == match ParseLine(text) case None => [] case Some(b) => [b]
  {
    LinesLast(text);
    assert [text] + [] == [text];
    BindingsOfFirst(text, []);
  }

  function Meant(line: Line): Option<Binding> { Bound(line.item) }

  /** A file of such lines reads back exactly: every assignment, in order, whatever quotes, `=` or `#` its value holds. */
  lemma {:induction false} DocumentReadsBack(lines: seq<Line>, closed: bool)
    requires forall l :: l in lines ==> Writable(l.item)
    ensures Bindings(Document(lines, closed)) == FilterMap(Meant, lines)
  {
    if lines == [] {
      assert Lines("") == [""] && ParseLine("").None?;
    } else {
      var first := lines[0];
      ParseText(first.item);
      TextHasNoNewline(first.item);
      if |lines| == 1 && !closed {
        OpenLine(Text(first.item));
        assert FilterMap(Meant, lines[1..]) == [];
      } else {
        EndedLine(Text(first.item), first.crlf, Document(lines[1..], closed));
        DocumentReadsBack(lines[1..], closed);
      }
    }
  }

  predicate SameKey(i: Item, j: Item) { i.Assignment? && j.Assignment? && i.key == j.key }

  lemma AssignmentOf(lines: seq<Line>, key: string)
    ensures match FirstBinding(FilterMap(Meant, lines), key)
            case None => forall l :: l in lines && l.item.Assignment? ==> l.item.key != key
            case Some(value) => exists l :: l in lines && l.item.Assignment? && l.item.key == key && l.item.value == value
  {
    var bs := FilterMap(Meant, lines);
    FirstBindingIsOne(bs, key);
    match FirstBinding(bs, key)
    case None =>
      forall l | l in lines && l.item.Assignment? ensures l.item.key != key {
        FilterMapOrigin(Meant, lines, Binding(l.item.key, l.item.value));
        assert Meant(l) == Some(Binding(l.item.key, l.item.value));
      }
    case Some(value) =>
      FilterMapOrigin(Meant, lines, Binding(key, value));
      var l :| l in lines && Meant(l) == Some(Binding(key, value));
      assert l.item.Assignment?;
  }

  ghost predicate Holds(vars: Vars, item: Item) {
    item.Assignment? ==> item.key in vars && vars[item.key] == item.value
  }

  /** The name was free to be set, or already had the value. */
  ghost predicate Settable(before: Vars, item: Item) {
    item.Assignment? ==>
      if item.key in before then before[item.key] == item.value else item.key !in INHERITED
  }

  /**
   Parsing undoes printing: loading a written map adds its names that were not defined and nothing else, and
   the whole map holds afterwards exactly when each name was settable.
   */
  lemma {:induction false} WrittenMapIsRecovered(before: Vars, lines: seq<Line>, closed: bool, after: Vars)
    requires forall l :: l in lines ==> Writable(l.item)
    requires forall l, m :: l in lines && m in lines && SameKey(l.item, m.item) ==> l.item.value == m.item.value
    requires Overlaid(before, Bindings(Document(lines, closed)), after)
    ensures (forall l :: l in lines ==> Holds(after, l.item)) <==> (forall l :: l in lines ==> Settable(before, l.item))
    ensures forall key :: key in after <==>
              key in before || (key !in INHERITED && exists l :: l in lines && l.item.Assignment? && l.item.key == key)
    ensures forall key :: key in before ==> after[key] == before[key]
  {
    DocumentReadsBack(lines, closed);
    forall key
      ensures key in after <==>
                key in before || (key !in INHERITED && exists l :: l in lines && l.item.Assignment? && l.item.key == key)
    {
      AssignmentOf(lines, key);
    }
    forall l | l in lines && l.item.Assignment? ensures Holds(after, l.item) <==> Settable(before, l.item) {
      AssignmentOf(lines, l.item.key);
    }
    forall l | l in lines ensures Holds(after, l.item) <==> Settable(before, l.item) {
    }
  }

  lemma {:induction false} PlainLine(key: string, value: string)
    requires LoadableKey(key) && '\n' !in key && '\n' !in value && Trimmed(value) && !Quoted(value)
    ensures Bindings(key + "=" + value) == [Binding(key, value)]
  {
    if value != "" {
      SpaceIsWhite(value[0]);
      SpaceIsWhite(value[|value| - 1]);
    }
    UnquotedReadsBack(key, value);
    NoNewlineConcat(key, "=" + value);
    assert key + ("=" + value) == key + "=" + value;
    OpenLine(key + "=" + value);
  }

  lemma ToStringIsLoadable()
    ensures LoadableKey("toString") && '\n' !in "toString"
  {
    assert !IsSpace('t') && !IsSpace('g');
    assert "toString"[0] == 't' && "toString"[7] == 'g';
  }

  lemma {:induction false} ToStringLine()
    ensures Bindings("toString=x") == [Binding("toString", "x")]
  {
    assert !IsSpace('x') && "x"[0] == 'x';
    ToStringIsLoadable();
    PlainLine("toString", "x");
    assert "toString=x" == "toString" + "=" + "x";
  }

  /** An inherited name: `toString=x` binds it, and it is still not set. */
  lemma {:induction false} InheritedIsNeverSet(after: Vars)
    ensures Bindings("toString=x") == [Binding("toString", "x")]
    ensures Overlaid(map[], Bindings("toString=x"), after) ==> after == map[]
  {
    ToStringLine();
    if Overlaid(map[], [Binding("toString", "x")], after) {
      OneInherited(map[], Binding("toString", "x"), after);
    }
  }

  lemma OneInherited(before: Vars, b: Binding, after: Vars)
    requires b.key in INHERITED && Overlaid(before, [b], after)
    ensures FirstBinding([b], b.key) == Some(b.value) && after == before
  {
    assert forall key :: key != b.key ==> FirstBinding([b], key) == FirstBinding([b][1..], key) == None;
  }

  // ---------------------------------------------------------------------------------------------
  // The reader on the characters themselves
  // ---------------------------------------------------------------------------------------------

  /** ECMAScript's WhiteSpace and LineTerminator, by code point. */
  predicate White(c: char) {
    var n := c as int;
    || 9 <= n <= 13 || n == 32 || n == 160 || n == 5760 || 8192 <= n <= 8202
    || n == 8232 || n == 8233 || n == 8239 || n == 8287 || n == 12288 || n == 65279
  }

  predicate Pad(s: string) { forall i :: 0 <= i < |s| ==> White(s[i]) && s[i] != '\n' }

  /** Letters, digits and underscores, at least one. */
  predicate Word(s: string) {
    s != "" && forall i :: 0 <= i < |s| ==> 'A' <= s[i] <= 'Z' || 'a' <= s[i] <= 'z' || '0' <= s[i] <= '9' || s[i] == '_'
  }

  lemma SpaceIsWhite(c: char)
    ensures IsSpace(c) <==> White(c)
  {
  }

  lemma PadIsSpaces(s: string)
    requires Pad(s)
    ensures Spaces(s)
  {
    forall i | 0 <= i < |s| ensures IsSpace(s[i]) { SpaceIsWhite(s[i]); }
  }

  lemma WordIsLoadable(s: string)
    requires Word(s)
    ensures LoadableKey(s) && Trimmed(s) && !Quoted(s) && '\n' !in s
  {
    SpaceIsWhite(s[0]);
    SpaceIsWhite(s[|s| - 1]);
  }

  /** White space of any kind around name, `=` and value is dropped: `PORT = 3000` is PORT and 3000. */
  lemma {:induction false} PaddedLine(pad: string, key: string, pad1: string, pad2: string, value: string, pad3: string)
    requires Pad(pad) && Pad(pad1) && Pad(pad2) && Pad(pad3) && Word(key) && Word(value)
    ensures ParseLine(pad + key + pad1 + "=" + pad2 + value + pad3) == Some(Binding(key, value))
  {
    PadIsSpaces(pad);
    PadIsSpaces(pad1);
    PadIsSpaces(pad2);
    PadIsSpaces(pad3);
    WordIsLoadable(key);
    WordIsLoadable(value);
    ParseText(Assignment(pad, key, pad1, pad2, value, Plain, pad3));
    assert pad + (key + (pad1 + "=" + (pad2 + value + pad3))) == pad + key + pad1 + "=" + pad2 + value + pad3;
  }

  lemma {:induction false} TrimKeepsOnly(s: string, c: char)
    requires c in Trim(s)
    ensures c in s
  {
    TrimStartKeepsOnly(s, c);
    TrimEndFacts(TrimStart(s));
  }

  lemma {:induction false} TrimStartKeepsOnly(s: string, c: char)
    ensures c in TrimStart(s) ==> c in s
  {
    if s != "" && IsSpace(s[0]) {
      TrimStartKeepsOnly(s[1..], c);
      assert s == [s[0]] + s[1..];
    }
  }

  /** A line without `=` binds nothing, nor does one that begins with it. */
  lemma {:induction false} NoNameIsSkipped(raw: string, pad: string)
    requires Pad(pad)
    ensures '=' !in raw ==> ParseLine(raw).None?
    ensures ParseLine(pad + "=" + raw).None?
  {
    if '=' !in raw {
      if '=' in Trim(raw) { TrimKeepsOnly(raw, '='); }
      assert Find(Trim(raw), '=') == |Trim(raw)|;
    }
    PadIsSpaces(pad);
    SpaceIsWhite('=');
    TrimStartBehind(pad, "=" + raw);
    assert pad + "=" + raw == pad + ("=" + raw);
    assert ("=" + raw)[0] == '=' && TrimStart("=" + raw) == "=" + raw;
    TrimEndBehind("=", raw);
  }

  lemma TrimLone(c: char)
    requires !White(c)
    ensures Trim([c]) == [c]
  {
    SpaceIsWhite(c);
    TrimFacts([c]);
  }

  lemma {:induction false} ParseWord(key: string, written: string)
    requires Word(key)
    ensures ParseLine(key + "=" + written) == Some(Binding(key, Unquote(Trim(written))))
  {
    WordIsLoadable(key);
    ParseAssignment("", key, "", written);
    assert "" + (key + ("" + "=" + written)) == key + "=" + written;
  }

  /** A value that is one lone quote becomes empty. */
  lemma {:induction false} LoneQuoteIsEmpty(key: string, quote: char)
    requires Word(key) && (quote == '"' || quote == '\'')
    ensures ParseLine(key + "=" + [quote]) == Some(Binding(key, ""))
  {
    ParseWord(key, [quote]);
    TrimLone(quote);
  }

  /** The names that every object inherits. */
  predicate Inherited(name: string) {
    || name == "constructor" || name == "hasOwnProperty" || name == "isPrototypeOf" || name == "propertyIsEnumerable"
    || name == "toLocaleString" || name == "toString" || name == "valueOf" || name == "__proto__"
    || name == "__defineGetter__" || name == "__defineSetter__" || name == "__lookupGetter__" || name == "__lookupSetter__"
  }

  lemma {:induction false} FirstMeant(lines: seq<Line>, i: nat)
    requires i < |lines| && lines[i].item.Assignment?
    requires forall j :: 0 <= j < i ==> !SameKey(lines[j].item, lines[i].item)
    ensures FirstBinding(FilterMap(Meant, lines), lines[i].item.key) == Some(lines[i].item.value)
  {
    if i > 0 {
      assert forall j :: 0 <= j < i - 1 ==> lines[1..][j] == lines[j + 1];
      FirstMeant(lines[1..], i - 1);
      assert !SameKey(lines[0].item, lines[i].item);
      var rest := FilterMap(Meant, lines[1..]);
      assert [] + rest == rest;
      if lines[0].item.Assignment? {
        var b := Binding(lines[0].item.key, lines[0].item.value);
        assert FilterMap(Meant, lines) == [b] + rest && ([b] + rest)[1..] == rest;
      }
    }
  }

  lemma DefinedExactly(vars: Vars, key: string)
    ensures Defined(vars, key) <==> key in vars || Inherited(key)
  {
  }

  /** Of several assignments of a name the first counts, unless the name was set already or is inherited. */
  lemma {:induction false} FirstAssignmentWins(before: Vars, lines: seq<Line>, closed: bool, after: Vars, i: nat)
    requires forall l :: l in lines ==> Writable(l.item)
    requires Overlaid(before, Bindings(Document(lines, closed)), after)
    requires i < |lines| && lines[i].item.Assignment?
    requires forall j :: 0 <= j < i ==> !SameKey(lines[j].item, lines[i].item)
    ensures var key := lines[i].item.key;
            if key in before then key in after && after[key] == before[key]
            else if Inherited(key) then key !in after
            else key in after && after[key] == lines[i].item.value
  {
    DocumentReadsBack(lines, closed);
    FirstMeant(lines, i);
    var key := lines[i].item.key;
    DefinedExactly(before, key);
    assert FirstBinding(Bindings(Document(lines, closed)), key) == Some(lines[i].item.value);
  }

  /** Written without quotes, a value reads back exactly when no white space and no pair of equal quotes encloses it. */
  lemma {:induction false} UnquotedReadsBack(key: string, value: string)
    requires LoadableKey(key)
    ensures ParseLine(key + "=" + value) == Some(Binding(key, value)) <==>
              value == "" ||
              (var first, last := value[0], value[|value| - 1];
                !White(first) && !White(last) && !(first == last && (first == '"' || first == '\'')))
  {
    assert "" + (key + ("" + "=" + value)) == key + "=" + value;
    ParseAssignment("", key, "", value);
    TrimFacts(value);
    if Quoted(Trim(value)) { assert |Unquote(Trim(value))| < |Trim(value)|; }
    if value != "" {
      SpaceIsWhite(value[0]);
      SpaceIsWhite(value[|value| - 1]);
    }
  }

  lemma EndsAreLoadable(c: char, key: string)
    requires !White(c) && c != '=' && c != '#' && Word(key)
    ensures LoadableKey([c] + key + [c])
  {
    SpaceIsWhite(c);
    assert '=' !in [c] + key + [c];
  }

  /** No other character is dropped at either end of a name or of a value. */
  lemma {:induction false} OnlyWhiteIsDropped(c: char, key: string, value: string)
    requires !White(c) && c != '=' && c != '#' && c != '"' && c != '\'' && Word(key) && Word(value)
    ensures var k, v := [c] + key + [c], [c] + value + [c];
            ParseLine(k + "=" + v) == Some(Binding(k, v))
  {
    EndsAreLoadable(c, key);
    UnquotedReadsBack([c] + key + [c], [c] + value + [c]);
  }
}
