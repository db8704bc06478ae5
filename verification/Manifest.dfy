/** The application manifest: its printer, its reader, and what an application takes from it. */
module Manifest {
  import opened Wrappers
  import opened Strings

  /** A key and a value as they stand in the file; the printer puts a space behind the colon of most of them. */
  datatype Line = Line(key: string, space: bool, value: string)

  datatype Entry = Entry(key: string, value: string)

  // ---------------------------------------------------------------- reading

  /** The lines are what stands between the line breaks: none holds one, and joined with line breaks they are the text. */
  lemma {:induction false} LinesJoin(text: string)
    ensures Join(Lines(text), "\n") == text && forall l :: l in Lines(text) ==> '\n' !in l
    decreases |text|
  {
    var n := FindFirstOf(text, "\n", 0);
    if n == |text| {
      assert Lines(text) == [text];
    } else {
      var rest := Lines(text[n + 1..]);
      LinesJoin(text[n + 1..]);
      assert Lines(text)[1..] == rest;
      assert text == text[..n] + "\n" + text[n + 1..];
    }
  }

  /** The entry of a line that has no spaces at its ends: none for an empty line and one whose first colon is at its start or
      its end; the whole line twice without a colon; else what stands before and behind the first colon, trimmed. */
  lemma EntryOfLine(key: string, value: string)
    requires Free(key, ":") && NoEdgeSpace(key) && NoEdgeSpace(value)
    ensures EntryOf(key) == if key == "" then None else Some(Entry(key, key))
    ensures NoEdgeSpace(key + ":" + value) ==>
      EntryOf(key + ":" + value) == if key == "" || value == "" then None else Some(Entry(key, value))
  {
    TrimPadded(key);
    TrimPadded(value);
    FindIsFirst(key, ":", 0, |key|);
    var line := key + ":" + value;
    FindIsFirst(line, ":", 0, |key|);
    assert line[..|key|] == key && line[|key| + 1..] == value;
    if NoEdgeSpace(line) {
      TrimPadded(line);
    }
  }

  /** What getline makes of a text: a final line break is followed by one more, empty, line. */
  function Lines(text: string): (r: seq<string>)
    decreases |text|
  {
    var n := FindFirstOf(text, "\n", 0);
    if n == |text| then [text] else [text[..n]] + Lines(text[n + 1..])
  }

  /** The entry of a line, if there is any. */
  function EntryOf(line: string): Option<Entry> {
    var t := Trimmed(line);
    var pos := FindFirstOf(t, ":", 0);
    if t == "" || pos == 0 || pos == |t| - 1 then None
    else if pos == |t| then Some(Entry(Trimmed(t), Trimmed(t)))
    else Some(Entry(Trimmed(t[..pos]), Trimmed(t[pos + 1..])))
  }

  function Entries(lines: seq<string>): seq<Entry> {
    if lines == [] then []
    else
      var rest := Entries(lines[1..]);
      match EntryOf(lines[0])
      case None => rest
      case Some(e) => [e] + rest
  }

  /** The entries read so far and the lines still to come make up the result. */
  ghost predicate Reading(goal: seq<Entry>, done: seq<Entry>, left: seq<string>) {
    goal == done + Entries(left)
  }

  /** What is still to come at position `at`, unless the end has been seen. */
  ghost predicate Left(text: string, at: nat, eof: bool, left: seq<string>) {
    at <= |text| && if eof then left == [] else left == Lines(text[at..])
  }

  function Added(done: seq<Entry>, line: string): seq<Entry> {
    match EntryOf(line)
    case None => done
    case Some(e) => done + [e]
  }

  lemma ReadOne(goal: seq<Entry>, done: seq<Entry>, left: seq<string>)
    requires left != [] && Reading(goal, done, left)
    ensures Reading(goal, Added(done, left[0]), left[1..])
  {
    var rest := Entries(left[1..]);
    if EntryOf(left[0]).Some? {
      var e := EntryOf(left[0]).value;
      assert done + ([e] + rest) == done + [e] + rest;
    }
  }

  lemma NextLine(text: string, at: nat, end: nat, left: seq<string>)
    requires Left(text, at, false, left) && end == FindFirstOf(text, "\n", at)
    ensures left != [] && left[0] == text[at..end]
    ensures if end == |text| then Left(text, at, true, left[1..]) else Left(text, end + 1, false, left[1..])
  {
    FindInSuffix(text, "\n", at, at);
    if end == |text| {
      assert text[at..end] == text[at..];
    } else {
      assert text[at..][..end - at] == text[at..end] && text[at..][end - at + 1..] == text[end + 1..];
    }
  }

  /** The body of the read loop. */
  method ReadLine(text: string, manifest: seq<Entry>) returns (r: seq<Entry>)
    ensures r == Added(manifest, text)
  {
    var line := Trim(text);
    var pos := FindFirstOf(line, ":", 0);
    if line == "" || pos == 0 || pos == |line| - 1 {
      return manifest;
    }
    // without a colon, both substr(0, npos) and substr(npos + 1) are the whole line
    var key := line[..pos];
    var value := if pos == |line| then line else line[pos + 1..];
    key := Trim(key);
    value := Trim(value);
    assert line[..|line|] == line;
    r := manifest + [Entry(key, value)];
  }

  /** getline: the line at position `at`, and where the next one starts unless the end has been seen. */
  method GetLine(text: string, at: nat, ghost left: seq<string>) returns (line: string, eof: bool, next: nat)
    requires Left(text, at, false, left)
    ensures left != [] && line == left[0] && Left(text, next, eof, left[1..])
    ensures eof || at < next
  {
    var end := FindFirstOf(text, "\n", at);
    NextLine(text, at, end, left);
    line, eof, next := text[at..end], end == |text|, at;
    if !eof {
      next := end + 1;
    }
  }

  /** `file` is the content of the file, or None when there is none that could be opened. */
  method ReadManifestFile(file: Option<string>) returns (manifest: seq<Entry>)
    ensures manifest == if file.Some? then Entries(Lines(file.value)) else []
  {
    manifest := [];
    if file.None? {
      return;
    }
    var text := file.value;
    var at, eof := 0, false;
    ghost var left := Lines(text);
    assert text[0..] == text;
    while !eof
      invariant Left(text, at, eof, left) && Reading(Entries(Lines(text)), manifest, left)
      decreases if eof then 0 else 1, |text| - at
    {
      var line;
      line, eof, at := GetLine(text, at, left);
      ReadOne(Entries(Lines(text)), manifest, left);
      manifest := ReadLine(line, manifest);
      left := left[1..];
    }
  }

  // ---------------------------------------------------------------- printing

  datatype Module = Module(name: string, version: string)

  /** What generate_manifest is given; an absent option and an empty one are the same to it. */
  datatype Build = Build(name: string, id: string, guid: string, version: string, image: string, publisher: string,
                         url: string, sdk: bool, own: string, modules: seq<Module>, included: seq<string>, excluded: seq<string>)

  function Text(line: Line): string {
    line.key + (if line.space then ": " else ":") + line.value + "\n"
  }

  function TextOf(lines: seq<Line>): string {
    if lines == [] then "" else Text(lines[0]) + TextOf(lines[1..])
  }

  predicate Listed(b: Build, m: Module) {
    (b.included == [] || m.name in b.included) && (b.excluded == [] || m.name !in b.excluded)
  }

  function Optional(key: string, value: string): seq<Line> {
    if value == "" then [] else [Line(key, true, value)]
  }

  function ModuleLines(b: Build, modules: seq<Module>): seq<Line> {
    if modules == [] then []
    else
      (if Listed(b, modules[0]) then [Line(modules[0].name, false, modules[0].version)] else [])
      + ModuleLines(b, modules[1..])
  }

  function RequiredLines(b: Build): seq<Line> {
    [Line("#appname", true, b.name), Line("#appid", true, b.id), Line("#guid", true, b.guid)]
  }

  function OptionalLines(b: Build): seq<Line> {
    Optional("#version", b.version) + Optional("#image", b.image)
    + Optional("#publisher", b.publisher) + Optional("#url", b.url)
  }

  function HeaderLines(b: Build): seq<Line> { RequiredLines(b) + OptionalLines(b) }

  function RuntimeLines(b: Build): seq<Line> {
    (if b.sdk then [Line("sdk", true, b.own)] else []) + [Line("runtime", true, b.own)]
  }

  function ManifestLines(b: Build): seq<Line> {
    HeaderLines(b) + RuntimeLines(b) + ModuleLines(b, b.modules)
  }

  lemma {:induction false} TextOfConcat(a: seq<Line>, b: seq<Line>, c: seq<Line>)
    requires c == a + b
    ensures TextOf(c) == TextOf(a) + TextOf(b)
  {
    if a == [] {
      assert c == b;
    } else {
      assert c[1..] == a[1..] + b;
      TextOfConcat(a[1..], b, c[1..]);
    }
  }

  /** One `manifest += ...`. */
  method Put(manifest: string, line: Line, ghost lines: seq<Line>) returns (r: string)
    requires manifest == TextOf(lines)
    ensures r == TextOf(lines + [line])
  {
    TextOfConcat(lines, [line], lines + [line]);
    assert TextOf([line]) == Text(line);
    r := manifest + Text(line);
  }

  method PutOptional(manifest: string, key: string, value: string, ghost lines: seq<Line>) returns (r: string)
    requires manifest == TextOf(lines)
    ensures r == TextOf(lines + Optional(key, value))
  {
    r := manifest;
    assert lines + [] == lines;
    if value != "" {
      r := Put(manifest, Line(key, true, value), lines);
    }
  }

  lemma {:induction false} ModuleLinesSnoc(b: Build, modules: seq<Module>, m: Module, more: seq<Module>)
    requires more == modules + [m]
    ensures ModuleLines(b, more) == ModuleLines(b, modules) + (if Listed(b, m) then [Line(m.name, false, m.version)] else [])
    decreases |modules|
  {
    if modules != [] {
      assert more[1..] == modules[1..] + [m];
      ModuleLinesSnoc(b, modules[1..], m, more[1..]);
    }
  }

  /** Which modules have a line, and in which order: those included, or all if nothing is said about that, without those
      excluded. */
  lemma WhichModules(b: Build, modules: seq<Module>, m: Module)
    ensures ModuleLines(b, []) == []
    ensures (b.included == [] || m.name in b.included) && m.name !in b.excluded ==>
      ModuleLines(b, modules + [m]) == ModuleLines(b, modules) + [Line(m.name, false, m.version)]
    ensures (b.included != [] && m.name !in b.included) || m.name in b.excluded ==>
      ModuleLines(b, modules + [m]) == ModuleLines(b, modules)
  {
    ModuleLinesSnoc(b, modules, m, modules + [m]);
  }

  lemma TextOfOne(line: Line)
    ensures TextOf([line]) == line.key + (if line.space then ": " else ":") + line.value + "\n"
  {
  }

  lemma TextOfOptional(key: string, value: string)
    ensures value == "" ==> TextOf(Optional(key, value)) == ""
    ensures value != "" ==> TextOf(Optional(key, value)) == key + ": " + value + "\n"
  {
  }

  lemma OptionalText(b: Build)
    ensures TextOf(OptionalLines(b)) ==
      TextOf(Optional("#version", b.version)) + TextOf(Optional("#image", b.image))
      + TextOf(Optional("#publisher", b.publisher)) + TextOf(Optional("#url", b.url))
  {
    var l1 := Optional("#version", b.version) + Optional("#image", b.image);
    var l2 := l1 + Optional("#publisher", b.publisher);
    TextOfConcat(Optional("#version", b.version), Optional("#image", b.image), l1);
    TextOfConcat(l1, Optional("#publisher", b.publisher), l2);
    TextOfConcat(l2, Optional("#url", b.url), OptionalLines(b));
  }

  /** The text of a manifest, written out. */
  lemma ManifestText(b: Build)
    ensures TextOf(ManifestLines(b)) ==
      "#appname: " + b.name + "\n" + "#appid: " + b.id + "\n" + "#guid: " + b.guid + "\n"
      + (TextOf(Optional("#version", b.version)) + TextOf(Optional("#image", b.image))
         + TextOf(Optional("#publisher", b.publisher)) + TextOf(Optional("#url", b.url)))
      + ((if b.sdk then "sdk: " + b.own + "\n" else "") + "runtime: " + b.own + "\n")
      + TextOf(ModuleLines(b, b.modules))
  {
    RequiredText(b);
    OptionalText(b);
    RuntimeText(b);
    TextOfConcat(RequiredLines(b), OptionalLines(b), HeaderLines(b));
    TextOfConcat(HeaderLines(b), RuntimeLines(b), HeaderLines(b) + RuntimeLines(b));
    TextOfConcat(HeaderLines(b) + RuntimeLines(b), ModuleLines(b, b.modules), ManifestLines(b));
  }

  lemma RequiredText(b: Build)
    ensures TextOf(RequiredLines(b)) == "#appname: " + b.name + "\n" + "#appid: " + b.id + "\n" + "#guid: " + b.guid + "\n"
  {
    var l := RequiredLines(b);
    TextOfConcat([l[0]], [l[1]], [l[0]] + [l[1]]);
    TextOfConcat([l[0]] + [l[1]], [l[2]], l);
    TextOfOne(l[0]);
    TextOfOne(l[1]);
    TextOfOne(l[2]);
    assert "#appname" + ": " == "#appname: " && "#appid" + ": " == "#appid: " && "#guid" + ": " == "#guid: ";
    assert TextOf([l[0]]) == "#appname: " + b.name + "\n";
    assert TextOf([l[1]]) == "#appid: " + b.id + "\n";
    assert TextOf([l[2]]) == "#guid: " + b.guid + "\n";
    var t0, t1, t2 := TextOf([l[0]]), "#appid: " + b.id, "#guid: " + b.guid;
    assert t0 + (t1 + "\n") + (t2 + "\n") == t0 + t1 + "\n" + t2 + "\n";
    assert t0 + "#appid: " + b.id == t0 + t1;
    assert t0 + t1 + "\n" + "#guid: " + b.guid == t0 + t1 + "\n" + t2;
  }

  lemma RuntimeText(b: Build)
    ensures TextOf(RuntimeLines(b)) == (if b.sdk then "sdk: " + b.own + "\n" else "") + "runtime: " + b.own + "\n"
  {
    var runtime := Line("runtime", true, b.own);
    var sdk: seq<Line> := if b.sdk then [Line("sdk", true, b.own)] else [];
    TextOfConcat(sdk, [runtime], RuntimeLines(b));
    TextOfOne(runtime);
    TextOfOne(Line("sdk", true, b.own));
    assert "sdk" + ": " == "sdk: " && "runtime" + ": " == "runtime: ";
    var front := TextOf(sdk);
    assert front + ("runtime: " + b.own + "\n") == front + "runtime: " + b.own + "\n";
  }

  method GenerateManifest(b: Build) returns (manifest: string)
    ensures manifest == TextOf(ManifestLines(b))
  {
    ghost var lines := [];
    manifest := "";
    manifest := Put(manifest, Line("#appname", true, b.name), lines);
    lines := lines + [Line("#appname", true, b.name)];
    manifest := Put(manifest, Line("#appid", true, b.id), lines);
    lines := lines + [Line("#appid", true, b.id)];
    manifest := Put(manifest, Line("#guid", true, b.guid), lines);
    lines := lines + [Line("#guid", true, b.guid)];
    manifest := PutOptional(manifest, "#version", b.version, lines);
    lines := lines + Optional("#version", b.version);
    manifest := PutOptional(manifest, "#image", b.image, lines);
    lines := lines + Optional("#image", b.image);
    manifest := PutOptional(manifest, "#publisher", b.publisher, lines);
    lines := lines + Optional("#publisher", b.publisher);
    manifest := PutOptional(manifest, "#url", b.url, lines);
    lines := lines + Optional("#url", b.url);
    assert lines == HeaderLines(b);
    manifest := PutRuntime(manifest, b, lines);
    lines := lines + RuntimeLines(b);
    manifest := PutModules(manifest, b, lines);
  }

  method PutRuntime(manifest: string, b: Build, ghost lines: seq<Line>) returns (r: string)
    requires manifest == TextOf(lines)
    ensures r == TextOf(lines + RuntimeLines(b))
  {
    r := manifest;
    ghost var sdk: seq<Line> := if b.sdk then [Line("sdk", true, b.own)] else [];
    if b.sdk {
      r := Put(r, Line("sdk", true, b.own), lines);
    }
    assert lines + [] == lines;
    r := Put(r, Line("runtime", true, b.own), lines + sdk);
    assert lines + sdk + [Line("runtime", true, b.own)] == lines + RuntimeLines(b);
  }

  /** The loop over self.modules. */
  method PutModules(manifest: string, b: Build, ghost lines: seq<Line>) returns (r: string)
    requires manifest == TextOf(lines)
    ensures r == TextOf(lines + ModuleLines(b, b.modules))
  {
    r := manifest;
    assert lines + [] == lines;
    ghost var put: seq<Line> := [];
    for i := 0 to |b.modules|
      invariant put == ModuleLines(b, b.modules[..i]) && r == TextOf(lines + put)
    {
      var m := b.modules[i];
      ModuleLinesSnoc(b, b.modules[..i], m, b.modules[..i + 1]);
      if (b.included != [] && m.name !in b.included) || (b.excluded != [] && m.name in b.excluded) {
        continue;
      }
      r := Put(r, Line(m.name, false, m.version), lines + put);
      assert lines + put + [Line(m.name, false, m.version)] == lines + (put + [Line(m.name, false, m.version)]);
      put := put + [Line(m.name, false, m.version)];
    }
    assert b.modules[..|b.modules|] == b.modules;
  }

  // ---------------------------------------------------------------- reading back

  predicate OneLine(line: Line) {
    '\n' !in line.key && '\n' !in line.value && ':' !in line.key
  }

  /** What is left of a line when it is read back. */
  function ReadBack(line: Line): Option<Entry> {
    if Trimmed(line.key) == "" || Trimmed(line.value) == "" then None
    else Some(Entry(Trimmed(line.key), Trimmed(line.value)))
  }

  function ReadBackAll(lines: seq<Line>): seq<Entry> {
    if lines == [] then []
    else (if ReadBack(lines[0]).Some? then [ReadBack(lines[0]).value] else []) + ReadBackAll(lines[1..])
  }

  function Body(line: Line): string { line.key + ":" + Padded(line) }

  function Padded(line: Line): string { if line.space then " " + line.value else line.value }

  lemma TextIsBody(line: Line)
    ensures Text(line) == Body(line) + "\n"
  {
  }

  /** Trimming a printed line trims the outer ends of its key and its value. */
  lemma TrimmedBody(line: Line, t: string)
    requires t == Body(line)
    ensures Trimmed(t) == TrimLeft(line.key) + ":" + TrimRight(Padded(line))
  {
    var front, v := line.key + ":", Padded(line);
    TrimRightKeeps(front, v, t);
    assert TrimRight(t) == line.key + (":" + TrimRight(v));
    TrimLeftKeeps(line.key, ":" + TrimRight(v), TrimRight(t));
    assert TrimLeft(line.key) + (":" + TrimRight(v)) == TrimLeft(line.key) + ":" + TrimRight(v);
  }

  lemma EntryOfBody(line: Line)
    requires OneLine(line)
    ensures EntryOf(Body(line)) == ReadBack(line)
  {
    var key, v := TrimLeft(line.key), TrimRight(Padded(line));
    var t := key + ":" + v;
    TrimmedBody(line, Body(line));
    TrimLeftTwice(line.key);
    FindIsFirst(t, ":", 0, |key|);
    assert t[..|key|] == key && t[|key| + 1..] == v;
    TrimmedAfterTrim(line.key);
    TrimmedAfterTrim(Padded(line));
    if line.space {
      TrimmedSpace(line.value, Padded(line));
    }
  }

  lemma FirstLine(line: Line, rest: string, text: string)
    requires OneLine(line) && text == Text(line) + rest
    ensures Lines(text) == [Body(line)] + Lines(rest)
  {
    TextIsBody(line);
    var n := |Body(line)|;
    FindIsFirst(text, "\n", 0, n);
    assert text[..n] == Body(line) && text[n + 1..] == rest;
  }

  /** Reading a printed manifest gives back every line whose key and value are not blank, in order, without the
      spaces around them. */
  lemma {:induction false} ReadWhatWasPrinted(lines: seq<Line>)
    requires forall l :: l in lines ==> OneLine(l)
    ensures Entries(Lines(TextOf(lines))) == ReadBackAll(lines)
  {
    if lines == [] {
      assert Lines("") == [""];
      assert EntryOf("").None?;
    } else {
      assert lines[0] in lines;
      var rest := TextOf(lines[1..]);
      FirstLine(lines[0], rest, TextOf(lines));
      assert Lines(TextOf(lines))[1..] == Lines(rest);
      EntryOfBody(lines[0]);
      ReadWhatWasPrinted(lines[1..]);
    }
  }

  /** Neither blank nor with spaces around it. */
  predicate Tight(s: string) { s != "" && NoEdgeSpace(s) }

  predicate TightLine(line: Line) { Tight(line.key) && Tight(line.value) }

  function Written(lines: seq<Line>): (r: seq<Entry>)
    ensures |r| == |lines|
  {
    if lines == [] then [] else [Entry(lines[0].key, lines[0].value)] + Written(lines[1..])
  }

  lemma {:induction false} NothingIsAdded(lines: seq<Line>)
    ensures |ReadBackAll(lines)| <= |lines|
  {
    if lines != [] {
      NothingIsAdded(lines[1..]);
    }
  }

  lemma TightIsTrimmed(line: Line)
    ensures ReadBack(line) == Some(Entry(line.key, line.value)) <==> TightLine(line)
  {
    TrimmedClean(line.key);
    TrimmedClean(line.value);
    if TightLine(line) {
      TrimPadded(line.key);
      TrimPadded(line.value);
    }
  }

  /** Exactly the written pairs come back if and only if none is blank or has spaces around it. */
  lemma {:induction false} WrittenComesBack(lines: seq<Line>)
    ensures ReadBackAll(lines) == Written(lines) <==> forall i :: 0 <= i < |lines| ==> TightLine(lines[i])
  {
    if lines != [] {
      var back, rest := ReadBackAll(lines[1..]), Written(lines[1..]);
      TightIsTrimmed(lines[0]);
      NothingIsAdded(lines[1..]);
      WrittenComesBack(lines[1..]);
      if ReadBackAll(lines) == Written(lines) {
        assert ReadBack(lines[0]).Some?;
        assert ReadBackAll(lines)[0] == Written(lines)[0];
        assert ReadBackAll(lines)[1..] == back && Written(lines)[1..] == rest;
        forall i | 0 <= i < |lines|
          ensures TightLine(lines[i])
        {
          if i > 0 {
            assert TightLine(lines[1..][i - 1]);
          }
        }
      }
    }
  }
}
