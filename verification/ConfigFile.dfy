/**
 LogCabin configuration files: lines of the form "key = value", comments from a
 comment mark to the end of the line, and values that continue on the following
 lines up to an empty line, a line with a delimiter, or the end of the file.
 */
module ConfigFile {

  /** The marks a Config is made with; "=" and "#" unless told otherwise. */
  datatype Format = Format(delimiter: string, comment: string) {
    /** Marks that are not empty and hold no white space. */
    predicate Valid() { delimiter != "" && comment != "" && NoSpace(delimiter) && NoSpace(comment) }
  }

  predicate IsSpace(ch: char) {
    ch == ' ' || ch == '\n' || ch == '\t' || ch == '\U{0b}' || ch == '\r' || ch == '\U{0c}'
  }

  predicate NoSpace(s: string) {
    forall i :: 0 <= i < |s| ==> !IsSpace(s[i])
  }

  // ------------------------------------------------------------ searching and trimming

  predicate At(s: string, p: string, i: int) {
    0 <= i && i + |p| <= |s| && s[i..i + |p|] == p
  }

  ghost predicate Lacks(s: string, p: string) {
    forall i :: !At(s, p, i)
  }

  /** The first occurrence from a position on; -1 if there is none. */
  function FindFrom(s: string, p: string, from: nat): (r: int)
    ensures -1 <= r && (r != -1 ==> r + |p| <= |s|)
    decreases |s| - from
  {
    if from + |p| > |s| then -1
    else if At(s, p, from) then from
    else FindFrom(s, p, from + 1)
  }

  function Find(s: string, p: string): (r: int)
    ensures -1 <= r && (r != -1 ==> r + |p| <= |s|)
  {
    FindFrom(s, p, 0)
  }

  lemma {:induction false} FindFromIs(s: string, p: string, from: nat)
    ensures var r := FindFrom(s, p, from);
      && (r == -1 || (from <= r && At(s, p, r)))
      && (forall i :: from <= i && (r == -1 || i < r) ==> !At(s, p, i))
    decreases |s| - from
  {
    if from + |p| <= |s| && !At(s, p, from) { FindFromIs(s, p, from + 1); }
  }

  /** Find yields the first occurrence, or -1 when there is none. */
  lemma FindIs(s: string, p: string)
    ensures Find(s, p) != -1 ==> At(s, p, Find(s, p))
    ensures forall i :: 0 <= i && (Find(s, p) == -1 || i < Find(s, p)) ==> !At(s, p, i)
  {
    FindFromIs(s, p, 0);
  }

  /** White space removed from the front. */
  function LTrim(s: string): string {
    if s == "" || !IsSpace(s[0]) then s else LTrim(s[1..])
  }

  /** White space removed from the end. */
  function RTrim(s: string): string {
    if s == "" || !IsSpace(s[|s| - 1]) then s else RTrim(s[..|s| - 1])
  }

  lemma {:induction false} LTrimIs(s: string)
    ensures |LTrim(s)| <= |s| && s[|s| - |LTrim(s)|..] == LTrim(s)
    ensures LTrim(s) != "" ==> !IsSpace(LTrim(s)[0])
  {
    if s != "" && IsSpace(s[0]) { LTrimIs(s[1..]); }
  }

  lemma {:induction false} RTrimIs(s: string)
    ensures |RTrim(s)| <= |s| && s[..|RTrim(s)|] == RTrim(s)
    ensures RTrim(s) != "" ==> !IsSpace(RTrim(s)[|RTrim(s)| - 1])
  {
    if s != "" && IsSpace(s[|s| - 1]) { RTrimIs(s[..|s| - 1]); }
  }

  /** Only white space is removed. */
  lemma {:induction false} LTrimRemoves(s: string, i: nat)
    requires i < |s| - |LTrim(s)|
    ensures IsSpace(s[i])
  {
    if i > 0 { LTrimRemoves(s[1..], i - 1); }
  }

  lemma {:induction false} RTrimRemoves(s: string, i: nat)
    requires |RTrim(s)| <= i < |s|
    ensures IsSpace(s[i])
    decreases |s|
  {
    if i < |s| - 1 { RTrimRemoves(s[..|s| - 1], i); }
  }

  predicate Trimmed(s: string) {
    s != "" ==> !IsSpace(s[0]) && !IsSpace(s[|s| - 1])
  }

  /** A line as readLine returns it: no comment, no white space at either end. */
  function Clean(f: Format, raw: string): string {
    var cut := Find(raw, f.comment);
    RTrim(LTrim(if cut != -1 then raw[..cut] else raw))
  }

  // ------------------------------------------------------------------------ lines

  predicate OneLine(s: string) { '\n' !in s }

  function LineEnd(text: string): (n: nat)
    ensures n <= |text| && '\n' !in text[..n] && (n < |text| ==> text[n] == '\n')
  {
    if text == "" || text[0] == '\n' then 0 else 1 + LineEnd(text[1..])
  }

  /** What is left of the text once its first line is read. */
  function AfterLine(text: string): (rest: string)
    ensures text != "" ==> |rest| < |text|
  {
    var n := LineEnd(text);
    if n < |text| then text[n + 1..] else ""
  }

  /** The lines that reading one line after another yields before it fails. */
  function Lines(f: Format, text: string): (lines: seq<string>)
    decreases |text|
  {
    if text == "" then [] else [Clean(f, text[..LineEnd(text)])] + Lines(f, AfterLine(text))
  }

  lemma {:induction false} LineEndIs(head: string, rest: string)
    requires OneLine(head)
    ensures LineEnd(head + "\n" + rest) == |head|
  {
    if head != "" {
      LineEndIs(head[1..], rest);
      assert (head + "\n" + rest)[1..] == head[1..] + "\n" + rest;
    }
  }

  lemma LinesNext(f: Format, head: string, rest: string)
    requires OneLine(head)
    ensures Lines(f, head + "\n" + rest) == [Clean(f, head)] + Lines(f, rest)
  {
    LineEndIs(head, rest);
    var text := head + "\n" + rest;
    assert text[..|head|] == head && text[|head| + 1..] == rest;
  }

  /** A text is read line by line; what follows the last line break is a line if it is not empty. */
  lemma LineByLine(f: Format, line: string, rest: string)
    requires OneLine(line)
    ensures Lines(f, line + "\n" + rest) == [Clean(f, line)] + Lines(f, rest)
    ensures Lines(f, line) == if line == "" then [] else [Clean(f, line)]
  {
    LinesNext(f, line, rest);
    EndOfLast(line);
    assert line[..|line|] == line && Lines(f, "") == [];
  }

  lemma {:induction false} EndOfLast(line: string)
    requires OneLine(line)
    ensures LineEnd(line) == |line|
  {
    if line != "" { EndOfLast(line[1..]); }
  }

  /** The part of a line before the first comment mark, without the white space around it. */
  lemma CleanIs(f: Format, raw: string, cut: nat) returns (a: nat, b: nat)
    requires cut <= |raw| && (forall i :: 0 <= i < cut ==> !At(raw, f.comment, i))
    requires if cut < |raw| then At(raw, f.comment, cut) else Lacks(raw, f.comment)
    ensures a <= b <= cut && Clean(f, raw) == raw[a..b] && Trimmed(raw[a..b])
    ensures forall i :: 0 <= i < cut && !(a <= i < b) ==> IsSpace(raw[i])
  {
    FindIs(raw, f.comment);
    var head := raw[..cut];
    assert Find(raw, f.comment) == if cut < |raw| then cut else -1;
    assert raw[..|raw|] == raw;
    var left := LTrim(head);
    LTrimIs(head);
    RTrimIs(left);
    a := |head| - |left|;
    b := a + |RTrim(left)|;
    assert RTrim(left) == left[..|RTrim(left)|] == head[a..b] == raw[a..b];
    forall i | 0 <= i < cut && !(a <= i < b) ensures IsSpace(raw[i]) {
      if i < a {
        LTrimRemoves(head, i);
      } else {
        RTrimRemoves(left, i - a);
        assert left[i - a] == head[i];
      }
    }
  }

  // ---------------------------------------------------------------------- parsing

  predicate HasDelimiter(f: Format, line: string) { Find(line, f.delimiter) != -1 }

  /** A value with the lines that continue it, and the lines left; an empty line that ends a value is used up. */
  datatype Gathered = Gathered(value: string, left: seq<string>)

  function Gather(f: Format, value: string, lines: seq<string>): (g: Gathered)
    ensures |g.left| <= |lines|
    decreases |lines|
  {
    if lines == [] then Gathered(value, [])
    else if lines[0] == "" then Gathered(value, lines[1..])
    else if HasDelimiter(f, lines[0]) then Gathered(value, lines)
    else Gather(f, value + "\n" + lines[0], lines[1..])
  }

  function KeyOf(f: Format, line: string): string
    requires HasDelimiter(f, line)
  {
    RTrim(line[..Find(line, f.delimiter)])
  }

  function FirstOf(f: Format, line: string): string
    requires HasDelimiter(f, line)
  {
    LTrim(line[Find(line, f.delimiter) + |f.delimiter|..])
  }

  /** The entries of clean lines, later ones overriding earlier ones. */
  function Parse(f: Format, lines: seq<string>, contents: map<string, string>): map<string, string>
    decreases |lines|
  {
    if lines == [] then contents
    else if !HasDelimiter(f, lines[0]) then Parse(f, lines[1..], contents)
    else
      var g := Gather(f, FirstOf(f, lines[0]), lines[1..]);
      Parse(f, g.left, contents[KeyOf(f, lines[0]) := g.value])
  }

  function ParseText(f: Format, text: string, contents: map<string, string>): map<string, string> {
    Parse(f, Lines(f, text), contents)
  }

  // ------------------------------------------------------ what the lines of a file mean

  /** The lines that continue a value, each after a line break: up to an empty one or one with a delimiter. */
  function Continuation(f: Format, lines: seq<string>): string {
    if lines == [] || lines[0] == "" || HasDelimiter(f, lines[0]) then ""
    else "\n" + lines[0] + Continuation(f, lines[1..])
  }

  /** The value of the entry that starts at a line. */
  function ValueAt(f: Format, lines: seq<string>, i: nat): string
    requires i < |lines| && HasDelimiter(f, lines[i])
  {
    FirstOf(f, lines[i]) + Continuation(f, lines[i + 1..])
  }

  /** The line has a delimiter and gives a value to the key. */
  predicate Sets(f: Format, lines: seq<string>, i: int, key: string) {
    0 <= i < |lines| && HasDelimiter(f, lines[i]) && KeyOf(f, lines[i]) == key
  }

  /** The value a key has: that of the last line that sets it, or else the one it had. */
  ghost predicate ValueIs(f: Format, lines: seq<string>, contents: map<string, string>, key: string, value: string) {
    || (exists i ::
          Sets(f, lines, i, key) && value == ValueAt(f, lines, i) && forall j :: j > i ==> !Sets(f, lines, j, key))
    || (key in contents && value == contents[key] && forall i :: !Sets(f, lines, i, key))
  }

  lemma {:induction false} GatherIs(f: Format, value: string, lines: seq<string>)
    ensures Gather(f, value, lines).value == value + Continuation(f, lines)
    decreases |lines|
  {
    if lines == [] || lines[0] == "" || HasDelimiter(f, lines[0]) {
      assert value + "" == value;
    } else {
      var more := Continuation(f, lines[1..]);
      GatherIs(f, value + "\n" + lines[0], lines[1..]);
      assert value + "\n" + lines[0] + more == value + ("\n" + lines[0] + more);
    }
  }

  /** Lines that gathering uses up set nothing. */
  lemma {:induction false} GatherSkips(f: Format, value: string, lines: seq<string>, contents: map<string, string>)
    requires f.delimiter != ""
    ensures Parse(f, Gather(f, value, lines).left, contents) == Parse(f, lines, contents)
    decreases |lines|
  {
    if lines != [] {
      if lines[0] == "" {
        assert !HasDelimiter(f, lines[0]);
      } else if !HasDelimiter(f, lines[0]) {
        GatherSkips(f, value + "\n" + lines[0], lines[1..], contents);
      }
    }
  }

  /** One line at a time: a line with a delimiter sets its key, any other sets nothing. */
  lemma ParseFirst(f: Format, lines: seq<string>, contents: map<string, string>)
    requires f.delimiter != "" && lines != []
    ensures Parse(f, lines, contents) == Parse(f, lines[1..], AfterFirst(f, lines, contents))
  {
    if HasDelimiter(f, lines[0]) {
      var first := FirstOf(f, lines[0]);
      var g := Gather(f, first, lines[1..]);
      GatherIs(f, first, lines[1..]);
      GatherSkips(f, first, lines[1..], contents[KeyOf(f, lines[0]) := g.value]);
    }
  }

  lemma SetsLater(f: Format, lines: seq<string>, i: int, key: string)
    requires lines != [] && i >= 0
    ensures Sets(f, lines, i + 1, key) <==> Sets(f, lines[1..], i, key)
    ensures Sets(f, lines, i + 1, key) ==> ValueAt(f, lines, i + 1) == ValueAt(f, lines[1..], i)
  {
    if i + 1 < |lines| { assert lines[1..][i + 1..] == lines[i + 2..]; }
  }

  /** The contents once the first line has been taken account of. */
  function AfterFirst(f: Format, lines: seq<string>, contents: map<string, string>): map<string, string>
    requires lines != []
  {
    if HasDelimiter(f, lines[0]) then contents[KeyOf(f, lines[0]) := ValueAt(f, lines, 0)] else contents
  }

  lemma ValueIsFirst(f: Format, lines: seq<string>, contents: map<string, string>, key: string, value: string,
                     next: map<string, string>)
    requires lines != [] && next == AfterFirst(f, lines, contents) && ValueIs(f, lines[1..], next, key, value)
    ensures ValueIs(f, lines, contents, key, value)
  {
    var rest := lines[1..];
    if i :| Sets(f, rest, i, key) && value == ValueAt(f, rest, i) && forall j :: j > i ==> !Sets(f, rest, j, key) {
      SetsLater(f, lines, i, key);
      forall j | j > i + 1 ensures !Sets(f, lines, j, key) { SetsLater(f, lines, j - 1, key); }
    } else {
      forall j | j > 0 ensures !Sets(f, lines, j, key) { SetsLater(f, lines, j - 1, key); }
      if Sets(f, lines, 0, key) {
        assert value == ValueAt(f, lines, 0);
      } else {
        forall j ensures !Sets(f, lines, j, key) {}
      }
    }
  }

  /** Every key has the value of the last line that sets it, and no other keys are there. */
  lemma {:induction false} ParseGives(f: Format, lines: seq<string>, contents: map<string, string>, key: string)
    requires f.delimiter != ""
    ensures var parsed := Parse(f, lines, contents);
            && (key in parsed <==> key in contents || exists i :: Sets(f, lines, i, key))
            && (key in parsed ==> ValueIs(f, lines, contents, key, parsed[key]))
    decreases |lines|
  {
    if lines != [] {
      var rest, next := lines[1..], AfterFirst(f, lines, contents);
      var parsed := Parse(f, lines, contents);
      ParseFirst(f, lines, contents);
      ParseGives(f, rest, next, key);
      if key in parsed { ValueIsFirst(f, lines, contents, key, parsed[key], next); }
      if i :| Sets(f, rest, i, key) { SetsLater(f, lines, i, key); }
      if i :| Sets(f, lines, i, key) && i > 0 { SetsLater(f, lines, i - 1, key); }
      if Sets(f, lines, 0, key) { assert key in next; }
    }
  }

  /** An empty line ends a value: what follows it without a delimiter belongs to nothing. */
  lemma EmptyLineEndsValue(f: Format, line: string, other: string)
    requires f.delimiter != "" && HasDelimiter(f, line) && !HasDelimiter(f, other)
    ensures Parse(f, [line, "", other], map[]) == map[KeyOf(f, line) := FirstOf(f, line)]
  {
    assert [line, "", other][1..] == ["", other] && ["", other][1..] == [other] && [other][1..] == [];
    assert Gather(f, FirstOf(f, line), ["", other]) == Gathered(FirstOf(f, line), [other]);
    assert Parse(f, [], map[KeyOf(f, line) := FirstOf(f, line)]) == map[KeyOf(f, line) := FirstOf(f, line)];
  }

  // --------------------------------------------------------------------- printing

  function EntryText(f: Format, key: string, value: string): string {
    key + " " + f.delimiter + " " + value + "\n"
  }

  /** The entries of the keys, in the order given, as they are printed. */
  function Print(f: Format, contents: map<string, string>, order: seq<string>): string
    requires forall k :: k in order ==> k in contents
  {
    if order == [] then ""
    else EntryText(f, order[0], contents[order[0]]) + Print(f, contents, order[1..])
  }

  ghost predicate Enumerates(order: seq<string>, contents: map<string, string>) {
    && (forall k :: k in order <==> k in contents)
    && (forall i, j :: 0 <= i < j < |order| ==> order[i] != order[j])
  }

  // ----------------------------------------------------------------- the code itself

  method ReadLine(f: Format, rest: string) returns (line: string, rest': string, ok: bool)
    ensures ok <==> rest != ""
    ensures ok ==> Lines(f, rest) == [line] + Lines(f, rest') && |rest'| < |rest|
    ensures !ok ==> line == "" && rest' == ""
  {
    ok := rest != "";
    var raw := rest[..LineEnd(rest)];
    rest' := AfterLine(rest);
    var cut := Find(raw, f.comment);
    if cut != -1 { raw := raw[..cut]; }
    line := RTrim(LTrim(raw));
    if !ok { assert raw == ""; }
  }

  /** The lines still to be parsed: one that was read ahead, unless it is empty, and those of the text. */
  ghost function Ahead(f: Format, next: string, rest: string): seq<string> {
    (if next == "" then [] else [next]) + Lines(f, rest)
  }

  method ReadValue(f: Format, first: string, start: string)
    returns (value: string, next: string, rest: string, ok: bool)
    ensures Gathered(value, Ahead(f, next, rest)) == Gather(f, first, Lines(f, start))
    ensures !ok ==> next == "" && rest == ""
    ensures |rest| + (if next == "" then 0 else 1) <= |start|
    ensures next != "" ==> HasDelimiter(f, next)
  {
    ghost var lines := Lines(f, start);
    value, next, rest, ok := first, "", start, true;
    while ok
      invariant next == ""
      invariant Gather(f, first, lines) == Gather(f, value, Lines(f, rest))
      invariant |rest| <= |start| && (!ok ==> rest == "")
      decreases |rest|, ok
    {
      ghost var left := Lines(f, rest);
      var line;
      line, rest, ok := ReadLine(f, rest);
      assert ok ==> left[1..] == Lines(f, rest);
      if line == "" {
        break;
      }
      if HasDelimiter(f, line) {
        next := line;
        break;
      }
      value := value + "\n";
      value := value + line;
    }
    assert next == "" ==> Ahead(f, next, rest) == Lines(f, rest);
  }

  /** The line read ahead, or one read now. */
  method NextLine(f: Format, next: string, rest: string, ok: bool) returns (line: string, rest': string, ok': bool)
    requires next != "" ==> ok
    requires !ok ==> rest == ""
    ensures ok' ==> Ahead(f, next, rest) == [line] + Lines(f, rest')
    ensures !ok' ==> Ahead(f, next, rest) == [] && line == "" && rest' == ""
    ensures next != "" ==> rest' == rest && ok'
    ensures next == "" && ok' ==> |rest'| < |rest|
  {
    if next == "" {
      line, rest', ok' := ReadLine(f, rest);
      assert Ahead(f, next, rest) == Lines(f, rest);
    } else {
      line, rest', ok' := next, rest, ok;
    }
  }

  lemma ParseLine(f: Format, line: string, lines: seq<string>, contents: map<string, string>)
    ensures !HasDelimiter(f, line) ==> Parse(f, [line] + lines, contents) == Parse(f, lines, contents)
    ensures HasDelimiter(f, line) ==>
      var g := Gather(f, FirstOf(f, line), lines);
      Parse(f, [line] + lines, contents) == Parse(f, g.left, contents[KeyOf(f, line) := g.value])
  {
    assert ([line] + lines)[1..] == lines;
  }

  class Config {
    const f: Format
    var contents: map<string, string>

    constructor (f: Format)
      ensures this.f == f && contents == map[]
    {
      this.f := f;
      contents := map[];
    }

    /** The entry that starts with a line, and what was read ahead to see where its value ends. */
    method ReadEntry(line: string, start: string) returns (next: string, rest: string, ok: bool)
      requires HasDelimiter(f, line)
      modifies this
      ensures Parse(f, [line] + Lines(f, start), old(contents)) == Parse(f, Ahead(f, next, rest), contents)
      ensures !ok ==> next == "" && rest == ""
      ensures |rest| + (if next == "" then 0 else 1) <= |start|
    {
      ParseLine(f, line, Lines(f, start), contents);
      var delimPos := Find(line, f.delimiter);
      var key := RTrim(line[..delimPos]);
      var value := LTrim(line[delimPos + |f.delimiter|..]);
      ghost var g := Gather(f, value, Lines(f, start));
      assert key == KeyOf(f, line) && value == FirstOf(f, line);
      value, next, rest, ok := ReadValue(f, value, start);
      assert g.value == value && g.left == Ahead(f, next, rest);
      contents := contents[key := value];
    }

    /** operator>> */
    method Read(text: string)
      requires f.delimiter != ""
      modifies this
      ensures contents == ParseText(f, text, old(contents))
    {
      var next, rest, ok := "", text, true;
      ghost var total := ParseText(f, text, contents);
      assert Ahead(f, next, rest) == Lines(f, text);
      while ok || next != ""
        invariant total == Parse(f, Ahead(f, next, rest), contents)
        invariant next != "" ==> ok
        invariant !ok ==> rest == ""
        decreases |rest| + (if next == "" then 0 else 1), ok
      {
        var line;
        line, rest, ok := NextLine(f, next, rest, ok);
        next := "";
        assert ok ==> total == Parse(f, [line] + Lines(f, rest), contents);
        if HasDelimiter(f, line) {
          next, rest, ok := ReadEntry(line, rest);
        } else {
          ParseLine(f, line, Lines(f, rest), contents);
          assert Ahead(f, "", rest) == Lines(f, rest);
        }
      }
    }

    /** operator<<, with the keys in the order the map is iterated. */
    method Write(order: seq<string>) returns (text: string)
      requires Enumerates(order, contents)
      ensures text == Print(f, contents, order)
    {
      text := "";
      assert order[0..] == order;
      for i := 0 to |order|
        invariant Print(f, contents, order) == text + Print(f, contents, order[i..])
      {
        var k := order[i];
        assert order[i..][0] == k && order[i..][1..] == order[i + 1..];
        text := text + EntryText(f, k, contents[k]);
      }
      assert order[|order|..] == [];
    }
  }

  // -------------------------------------------------------- what parsing can produce

  /** Further lines of a value, each after a line break. */
  ghost function Tail(lines: seq<string>): string {
    if lines == [] then "" else "\n" + lines[0] + Tail(lines[1..])
  }

  ghost predicate GoodLine(f: Format, s: string) {
    OneLine(s) && Trimmed(s) && Lacks(s, f.comment)
  }

  ghost predicate GoodMore(f: Format, s: string) {
    s != "" && GoodLine(f, s) && Lacks(s, f.delimiter)
  }

  ghost predicate AllGood(f: Format, lines: seq<string>) {
    forall i :: 0 <= i < |lines| ==> GoodMore(f, lines[i])
  }

  /** A value is a first line, possibly empty, and further lines none of which is empty or holds the delimiter. */
  ghost predicate GoodValue(f: Format, value: string, first: string, more: seq<string>) {
    value == first + Tail(more) && GoodLine(f, first) && AllGood(f, more)
  }

  ghost predicate GoodEntry(f: Format, key: string, value: string) {
    && GoodLine(f, key) && Lacks(key, f.delimiter) && Lacks(f.delimiter, f.comment)
    && exists first, more :: GoodValue(f, value, first, more)
  }

  ghost predicate GoodContents(f: Format, contents: map<string, string>) {
    forall k :: k in contents ==> GoodEntry(f, k, contents[k])
  }

  lemma AtSlice(s: string, p: string, a: nat, b: nat, i: int)
    requires a <= b <= |s|
    ensures At(s[a..b], p, i) ==> At(s, p, a + i)
  {
    if At(s[a..b], p, i) {
      forall k | 0 <= k < |p| ensures s[a + i..a + i + |p|][k] == p[k] {
        assert s[a..b][i..i + |p|][k] == p[k];
      }
      assert s[a + i..a + i + |p|] == p;
    }
  }

  lemma LacksSlice(s: string, p: string, a: nat, b: nat)
    requires Lacks(s, p) && a <= b <= |s|
    ensures Lacks(s[a..b], p)
  {
    forall i ensures !At(s[a..b], p, i) { AtSlice(s, p, a, b, i); }
  }

  lemma GoodSlice(f: Format, s: string, a: nat, b: nat)
    requires OneLine(s) && Lacks(s, f.comment) && a <= b <= |s|
    ensures OneLine(s[a..b]) && Lacks(s[a..b], f.comment)
  {
    LacksSlice(s, f.comment, a, b);
  }

  lemma LTrimGood(f: Format, s: string)
    requires OneLine(s) && Lacks(s, f.comment)
    ensures OneLine(LTrim(s)) && Lacks(LTrim(s), f.comment)
  {
    LTrimIs(s);
    GoodSlice(f, s, |s| - |LTrim(s)|, |s|);
    assert s[|s| - |LTrim(s)|..|s|] == LTrim(s);
  }

  lemma RTrimGood(f: Format, s: string)
    requires OneLine(s) && Lacks(s, f.comment)
    ensures OneLine(RTrim(s)) && Lacks(RTrim(s), f.comment)
  {
    RTrimIs(s);
    GoodSlice(f, s, 0, |RTrim(s)|);
    assert s[0..|RTrim(s)|] == RTrim(s);
  }

  lemma CutLacks(s: string, p: string)
    requires p != ""
    ensures Find(s, p) != -1 ==> Lacks(s[..Find(s, p)], p)
    ensures Find(s, p) == -1 ==> Lacks(s, p)
  {
    FindIs(s, p);
    var cut := Find(s, p);
    if cut != -1 {
      assert s[0..cut] == s[..cut];
      forall i ensures !At(s[..cut], p, i) { AtSlice(s, p, 0, cut, i); }
    }
  }

  lemma TrimTrims(s: string)
    ensures Trimmed(RTrim(LTrim(s)))
  {
    LTrimIs(s);
    RTrimIs(LTrim(s));
  }

  lemma CleanGood(f: Format, raw: string)
    requires f.comment != "" && OneLine(raw)
    ensures GoodLine(f, Clean(f, raw))
  {
    CutLacks(raw, f.comment);
    var cut := Find(raw, f.comment);
    var kept := if cut != -1 then raw[..cut] else raw;
    LTrimGood(f, kept);
    RTrimGood(f, LTrim(kept));
    TrimTrims(kept);
  }

  ghost predicate AllClean(f: Format, lines: seq<string>) {
    forall i :: 0 <= i < |lines| ==> GoodLine(f, lines[i])
  }

  lemma AllCleanCons(f: Format, line: string, lines: seq<string>)
    requires GoodLine(f, line) && AllClean(f, lines)
    ensures AllClean(f, [line] + lines)
  {
  }

  lemma {:induction false} LinesAreClean(f: Format, text: string)
    requires f.comment != ""
    ensures AllClean(f, Lines(f, text))
    decreases |text|
  {
    if text != "" {
      var head, rest := text[..LineEnd(text)], Lines(f, AfterLine(text));
      CleanGood(f, head);
      LinesAreClean(f, AfterLine(text));
      AllCleanCons(f, Clean(f, head), rest);
    }
  }

  lemma {:induction false} TailAppend(lines: seq<string>, line: string)
    ensures Tail(lines + [line]) == Tail(lines) + "\n" + line
  {
    if lines == [] {
      assert [line][1..] == [];
      assert "\n" + line + "" == "\n" + line;
    } else {
      TailAppend(lines[1..], line);
      assert (lines + [line])[1..] == lines[1..] + [line];
    }
  }

  lemma {:induction false} GatherGood(f: Format, value: string, lines: seq<string>, first: string, more: seq<string>)
    requires f.Valid() && AllClean(f, lines) && GoodValue(f, value, first, more)
    ensures exists more' :: GoodValue(f, Gather(f, value, lines).value, first, more')
    ensures AllClean(f, Gather(f, value, lines).left)
    decreases |lines|
  {
    if lines != [] && lines[0] != "" && !HasDelimiter(f, lines[0]) {
      TailAppend(more, lines[0]);
      assert value + "\n" + lines[0] == first + (Tail(more) + "\n" + lines[0]);
      CutLacks(lines[0], f.delimiter);
      GatherGood(f, value + "\n" + lines[0], lines[1..], first, more + [lines[0]]);
      assert Gather(f, value, lines) == Gather(f, value + "\n" + lines[0], lines[1..]);
    } else {
      assert GoodValue(f, Gather(f, value, lines).value, first, more);
    }
  }

  /** The key taken from a clean line. */
  lemma KeyGood(f: Format, line: string)
    requires f.Valid() && GoodLine(f, line) && HasDelimiter(f, line)
    ensures GoodLine(f, KeyOf(f, line)) && Lacks(KeyOf(f, line), f.delimiter)
  {
    var pos := Find(line, f.delimiter);
    var before := line[..pos];
    GoodSlice(f, line, 0, pos);
    assert line[0..pos] == before;
    RTrimGood(f, before);
    RTrimIs(before);
    CutLacks(line, f.delimiter);
    LacksSlice(before, f.delimiter, 0, |RTrim(before)|);
    assert before[0..|RTrim(before)|] == RTrim(before);
  }

  /** The first line of a value taken from a clean line. */
  lemma FirstGood(f: Format, line: string)
    requires f.Valid() && GoodLine(f, line) && HasDelimiter(f, line)
    ensures GoodLine(f, FirstOf(f, line)) && Lacks(f.delimiter, f.comment)
  {
    var pos := Find(line, f.delimiter);
    var after := line[pos + |f.delimiter|..];
    GoodSlice(f, line, pos + |f.delimiter|, |line|);
    assert line[pos + |f.delimiter|..|line|] == after;
    LTrimGood(f, after);
    LTrimIs(after);
    FindIs(line, f.delimiter);
    GoodSlice(f, line, pos, pos + |f.delimiter|);
  }

  lemma {:induction false} ParseGood(f: Format, lines: seq<string>, contents: map<string, string>)
    requires f.Valid() && AllClean(f, lines) && GoodContents(f, contents)
    ensures GoodContents(f, Parse(f, lines, contents))
    decreases |lines|
  {
    if lines == [] {
    } else if !HasDelimiter(f, lines[0]) {
      ParseGood(f, lines[1..], contents);
    } else {
      KeyGood(f, lines[0]);
      FirstGood(f, lines[0]);
      var first := FirstOf(f, lines[0]);
      assert first + Tail([]) == first;
      assert GoodValue(f, first, first, []);
      GatherGood(f, first, lines[1..], first, []);
      var g := Gather(f, first, lines[1..]);
      ParseGood(f, g.left, contents[KeyOf(f, lines[0]) := g.value]);
    }
  }

  // ------------------------------------------------------ reading back what is printed

  function Printed(f: Format, key: string, first: string): string {
    key + " " + f.delimiter + " " + first
  }

  lemma LTrimSpace(s: string)
    ensures LTrim(" " + s) == LTrim(s)
  {
    assert (" " + s)[1..] == s;
  }

  lemma RTrimSpace(s: string)
    ensures RTrim(s + " ") == RTrim(s)
  {
    assert (s + " ")[..|s|] == s;
  }

  /** The part before the delimiter in a printed line once it is trimmed, and the part after it. */
  function Before(key: string): string { if key == "" then "" else key + " " }

  function Behind(first: string): string { if first == "" then "" else " " + first }

  lemma LTrimPrinted(f: Format, key: string, first: string)
    requires f.Valid() && Trimmed(key)
    ensures LTrim(Printed(f, key, first)) == Before(key) + f.delimiter + " " + first
  {
    var left := Before(key) + f.delimiter + " " + first;
    if key == "" {
      LTrimSpace(left);
      assert Printed(f, key, first) == " " + left;
      assert left[0] == f.delimiter[0];
    } else {
      assert Printed(f, key, first) == left && left[0] == key[0];
    }
  }

  lemma RTrimPrinted(f: Format, before: string, first: string)
    requires f.Valid() && Trimmed(first)
    ensures RTrim(before + f.delimiter + " " + first) == before + f.delimiter + Behind(first)
  {
    var d, left := f.delimiter, before + f.delimiter + " " + first;
    if first == "" {
      RTrimSpace(before + d);
      assert left == before + d + " ";
      assert (before + d)[|before + d| - 1] == d[|d| - 1];
      assert before + d + "" == before + d;
    } else {
      assert left == before + d + Behind(first);
      assert left[|left| - 1] == first[|first| - 1];
    }
  }

  lemma TrimParts(key: string, first: string)
    requires Trimmed(key) && Trimmed(first)
    ensures RTrim(Before(key)) == key && LTrim(Behind(first)) == first
  {
    RTrimSpace(key);
    LTrimSpace(first);
  }

  lemma NoSpaceAt(s: string, p: string, i: int, k: int)
    requires NoSpace(p) && At(s, p, i) && i <= k < i + |p|
    ensures !IsSpace(s[k])
  {
    assert s[i..i + |p|][k - i] == s[k];
  }

  /** A mark without white space does not occur across a space. */
  lemma AcrossSpace(a: string, b: string, p: string, i: int)
    requires p != "" && NoSpace(p) && At(a + " " + b, p, i)
    ensures At(a, p, i) || At(b, p, i - |a| - 1)
  {
    var s := a + " " + b;
    if i <= |a| < i + |p| {
      NoSpaceAt(s, p, i, |a|);
    } else if i + |p| <= |a| {
      assert s[i..i + |p|] == a[i..i + |p|];
    } else {
      var j := i - |a| - 1;
      assert s[i..i + |p|] == b[j..j + |p|];
    }
  }

  lemma LacksAcross(a: string, b: string, p: string)
    requires p != "" && NoSpace(p) && Lacks(a, p) && Lacks(b, p)
    ensures Lacks(a + " " + b, p)
  {
    forall i ensures !At(a + " " + b, p, i) {
      if At(a + " " + b, p, i) { AcrossSpace(a, b, p, i); }
    }
  }

  lemma PrintedHasNoComment(f: Format, key: string, first: string)
    requires f.Valid() && GoodLine(f, key) && GoodLine(f, first) && Lacks(f.delimiter, f.comment)
    ensures Lacks(Printed(f, key, first), f.comment) && OneLine(Printed(f, key, first))
  {
    LacksAcross(key, f.delimiter, f.comment);
    LacksAcross(key + " " + f.delimiter, first, f.comment);
  }

  lemma CleanOfLacking(f: Format, raw: string)
    requires Lacks(raw, f.comment)
    ensures Clean(f, raw) == RTrim(LTrim(raw))
  {
    FindIs(raw, f.comment);
  }

  /** The first delimiter in a trimmed printed line is the printed one. */
  lemma FindPrinted(f: Format, key: string, behind: string)
    requires f.Valid() && Lacks(key, f.delimiter)
    ensures Find(Before(key) + f.delimiter + behind, f.delimiter) == |Before(key)|
  {
    var d, pre := f.delimiter, Before(key);
    var line := pre + d + behind;
    FindIs(line, d);
    assert line[|pre|..|pre| + |d|] == d;
    assert At(line, d, |pre|);
    forall i | 0 <= i < |pre| ensures !At(line, d, i) {
      if At(line, d, i) {
        assert line == key + " " + (d + behind);
        AcrossSpace(key, d + behind, d, i);
      }
    }
  }

  /** A printed line is read as the same key and first line. */
  lemma ReadPrinted(f: Format, key: string, first: string)
    requires f.Valid() && GoodLine(f, key) && GoodLine(f, first)
    requires Lacks(key, f.delimiter) && Lacks(f.delimiter, f.comment)
    ensures var line := Clean(f, Printed(f, key, first));
      line != "" && HasDelimiter(f, line) && KeyOf(f, line) == key && FirstOf(f, line) == first
  {
    PrintedHasNoComment(f, key, first);
    CleanOfLacking(f, Printed(f, key, first));
    LTrimPrinted(f, key, first);
    RTrimPrinted(f, Before(key), first);
    FindPrinted(f, key, Behind(first));
    TrimParts(key, first);
    var line := Before(key) + f.delimiter + Behind(first);
    assert line[..|Before(key)|] == Before(key);
    assert line[|Before(key)| + |f.delimiter|..] == Behind(first);
  }

  lemma CleanOfGood(f: Format, line: string)
    requires GoodLine(f, line)
    ensures Clean(f, line) == line
  {
    CleanOfLacking(f, line);
  }

  lemma RegroupEntry(a: string, b: string, c: string, d: string, e: string)
    ensures a + (b + c) + d + e == a + b + c + d + e
  {
  }

  lemma Regroup(a: string, b: string, c: string, d: string, e: string)
    ensures a + (b + c + d) + b + e == a + b + (c + d + b + e)
  {
  }

  /** A line, the lines that continue it, and what follows. */
  ghost function ValueText(head: string, more: seq<string>, rest: string): string
    decreases |more|
  {
    head + "\n" + if more == [] then rest else ValueText(more[0], more[1..], rest)
  }

  lemma {:induction false} ValueTextIs(head: string, more: seq<string>, rest: string)
    ensures ValueText(head, more, rest) == head + Tail(more) + "\n" + rest
    decreases |more|
  {
    if more == [] {
      assert head + Tail(more) == head;
    } else {
      ValueTextIs(more[0], more[1..], rest);
      Regroup(head, "\n", more[0], Tail(more[1..]), rest);
    }
  }

  lemma Glue(line: string, more: seq<string>, left: seq<string>)
    requires more != []
    ensures [line] + ([more[0]] + more[1..] + left) == [line] + more + left
  {
  }

  lemma LinesOfMore(f: Format, head: string, more: seq<string>, rest: string, text: string)
    requires OneLine(head) && more != [] && text == ValueText(more[0], more[1..], rest)
    requires Lines(f, text) == [more[0]] + more[1..] + Lines(f, rest)
    ensures Lines(f, ValueText(head, more, rest)) == [Clean(f, head)] + more + Lines(f, rest)
  {
    assert ValueText(head, more, rest) == head + "\n" + text;
    LinesNext(f, head, text);
    Glue(Clean(f, head), more, Lines(f, rest));
  }

  lemma {:induction false} LinesOfValue(f: Format, head: string, more: seq<string>, rest: string)
    requires OneLine(head) && AllGood(f, more)
    ensures Lines(f, ValueText(head, more, rest)) == [Clean(f, head)] + more + Lines(f, rest)
    decreases |more|
  {
    if more == [] {
      LinesNext(f, head, rest);
      assert [Clean(f, head)] + more == [Clean(f, head)];
    } else {
      LinesOfValue(f, more[0], more[1..], rest);
      CleanOfGood(f, more[0]);
      LinesOfMore(f, head, more, rest, ValueText(more[0], more[1..], rest));
    }
  }

  lemma {:induction false} GatherValue(f: Format, value: string, more: seq<string>, left: seq<string>)
    requires f.Valid() && AllGood(f, more) && (left != [] ==> left[0] != "" && HasDelimiter(f, left[0]))
    ensures Gather(f, value, more + left) == Gathered(value + Tail(more), left)
    decreases |more|
  {
    if more == [] {
      assert more + left == left && value + Tail(more) == value;
    } else {
      var lines := more + left;
      FindIs(more[0], f.delimiter);
      assert lines[1..] == more[1..] + left;
      GatherValue(f, value + "\n" + more[0], more[1..], left);
      assert value + "\n" + more[0] + Tail(more[1..]) == value + Tail(more);
    }
  }

  /** The entries added in order. */
  ghost function Updated(acc: map<string, string>, contents: map<string, string>, order: seq<string>)
    : map<string, string>
    requires forall k :: k in order ==> k in contents
    decreases |order|
  {
    if order == [] then acc else Updated(acc[order[0] := contents[order[0]]], contents, order[1..])
  }

  ghost predicate Ready(f: Format, contents: map<string, string>, order: seq<string>) {
    f.Valid() && forall k :: k in order ==> k in contents && GoodEntry(f, k, contents[k])
  }

  /** The lines of one printed entry and what follows it. */
  lemma PrintedEntry(f: Format, key: string, value: string, first: string, more: seq<string>, rest: string)
    requires f.Valid() && GoodLine(f, key) && Lacks(key, f.delimiter) && Lacks(f.delimiter, f.comment)
    requires GoodValue(f, value, first, more)
    ensures Lines(f, EntryText(f, key, value) + rest)
         == [Clean(f, Printed(f, key, first))] + more + Lines(f, rest)
  {
    PrintedHasNoComment(f, key, first);
    LinesOfValue(f, Printed(f, key, first), more, rest);
    ValueTextIs(Printed(f, key, first), more, rest);
    RegroupEntry(key + " " + f.delimiter + " ", first, Tail(more), "\n", rest);
  }

  lemma FirstPrinted(f: Format, contents: map<string, string>, order: seq<string>)
    requires Ready(f, contents, order)
    ensures var lines := Lines(f, Print(f, contents, order));
      lines != [] ==> lines[0] != "" && HasDelimiter(f, lines[0])
  {
    if order != [] {
      var key := order[0];
      var first, more :| GoodValue(f, contents[key], first, more);
      PrintedEntry(f, key, contents[key], first, more, Print(f, contents, order[1..]));
      ReadPrinted(f, key, first);
    }
  }

  /** A line with a delimiter, the lines that continue it, and an entry or the end after them. */
  lemma ParseBlock(f: Format, line: string, more: seq<string>, left: seq<string>, acc: map<string, string>)
    requires f.Valid() && HasDelimiter(f, line) && AllGood(f, more)
    requires left != [] ==> left[0] != "" && HasDelimiter(f, left[0])
    ensures Parse(f, [line] + more + left, acc) == Parse(f, left, acc[KeyOf(f, line) := FirstOf(f, line) + Tail(more)])
  {
    GatherValue(f, FirstOf(f, line), more, left);
    assert [line] + more + left == [line] + (more + left);
    ParseLine(f, line, more + left, acc);
  }

  lemma ParseEntry(f: Format, key: string, value: string, first: string, more: seq<string>, rest: string,
                   acc: map<string, string>)
    requires f.Valid() && GoodLine(f, key) && Lacks(key, f.delimiter) && Lacks(f.delimiter, f.comment)
    requires GoodValue(f, value, first, more)
    requires Lines(f, rest) != [] ==> Lines(f, rest)[0] != "" && HasDelimiter(f, Lines(f, rest)[0])
    ensures Parse(f, Lines(f, EntryText(f, key, value) + rest), acc) == Parse(f, Lines(f, rest), acc[key := value])
  {
    PrintedEntry(f, key, value, first, more, rest);
    ReadPrinted(f, key, first);
    ParseBlock(f, Clean(f, Printed(f, key, first)), more, Lines(f, rest), acc);
  }

  lemma {:induction false} ParsePrinted(f: Format, contents: map<string, string>, order: seq<string>,
                                        acc: map<string, string>)
    requires Ready(f, contents, order)
    ensures ParseText(f, Print(f, contents, order), acc) == Updated(acc, contents, order)
    decreases |order|
  {
    if order != [] {
      var key, rest := order[0], Print(f, contents, order[1..]);
      var first, more :| GoodValue(f, contents[key], first, more);
      FirstPrinted(f, contents, order[1..]);
      ParseEntry(f, key, contents[key], first, more, rest, acc);
      ParsePrinted(f, contents, order[1..], acc[key := contents[key]]);
    }
  }

  lemma {:induction false} UpdatedIs(acc: map<string, string>, contents: map<string, string>, order: seq<string>)
    requires forall k :: k in order ==> k in contents
    ensures forall k :: k in Updated(acc, contents, order) <==> k in acc || k in order
    ensures forall k :: k in order ==> Updated(acc, contents, order)[k] == contents[k]
    ensures forall k :: k in acc && k !in order ==> Updated(acc, contents, order)[k] == acc[k]
    decreases |order|
  {
    if order != [] {
      var acc' := acc[order[0] := contents[order[0]]];
      UpdatedIs(acc', contents, order[1..]);
      assert order == [order[0]] + order[1..];
    }
  }

  /** What a file says is always well formed. */
  lemma ParseTextGood(f: Format, text: string)
    requires f.Valid()
    ensures GoodContents(f, ParseText(f, text, map[]))
  {
    LinesAreClean(f, text);
    ParseGood(f, Lines(f, text), map[]);
  }

  /** Contents, which the program may have set itself, survive being printed and read exactly when well formed. */
  lemma PrintThenRead(f: Format, contents: map<string, string>, order: seq<string>)
    requires f.Valid() && Enumerates(order, contents)
    ensures ParseText(f, Print(f, contents, order), map[]) == contents <==> GoodContents(f, contents)
  {
    ParseTextGood(f, Print(f, contents, order));
    if GoodContents(f, contents) {
      ParsePrinted(f, contents, order, map[]);
      UpdatedIs(map[], contents, order);
    }
  }

  /** A value set by the program that holds a comment mark does not survive. */
  lemma CommentInValueIsLost(f: Format, contents: map<string, string>, key: string, order: seq<string>, i: nat)
    requires f.Valid() && Enumerates(order, contents) && key in contents
    requires OneLine(contents[key]) && At(contents[key], f.comment, i)
    ensures ParseText(f, Print(f, contents, order), map[]) != contents
  {
    PrintThenRead(f, contents, order);
    if GoodContents(f, contents) {
      assert GoodEntry(f, key, contents[key]);
      var first, more :| GoodValue(f, contents[key], first, more);
      TailHasBreak(first, more);
    }
  }

  lemma TailHasBreak(first: string, more: seq<string>)
    ensures more != [] ==> !OneLine(first + Tail(more))
    ensures more == [] ==> first + Tail(more) == first
  {
    if more != [] {
      assert (first + Tail(more))[|first|] == '\n';
    }
  }

  /** Reading any file, printing the configuration and reading that back gives the same configuration. */
  lemma RoundTrip(f: Format, text: string, order: seq<string>)
    requires f.Valid() && Enumerates(order, ParseText(f, text, map[]))
    ensures ParseText(f, Print(f, ParseText(f, text, map[]), order), map[]) == ParseText(f, text, map[])
  {
    ParseTextGood(f, text);
    PrintThenRead(f, ParseText(f, text, map[]), order);
  }
}
