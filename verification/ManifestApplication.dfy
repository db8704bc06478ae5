/** What an application takes from its manifest: Application::NewApplication and
    Dependency::NewDependencyFromManifestLine. */
module ManifestApplication {
  import opened Wrappers
  import opened Strings
  import opened Components
  import opened Manifest

  // ---------------------------------------------------------------- dependencies

  function KindOf(key: string): ComponentType {
    if key == "runtime" then RUNTIME else if key == "sdk" then SDK else if key == "mobilesdk" then MOBILESDK else MODULE
  }

  /** The type of a dependency is decided by the key alone. */
  lemma DependencyKinds(key: string, value: string)
    ensures DependencyOf(key, value).kind == RUNTIME <==> key == "runtime"
    ensures DependencyOf(key, value).kind == SDK <==> key == "sdk"
    ensures DependencyOf(key, value).kind == MOBILESDK <==> key == "mobilesdk"
    ensures DependencyOf(key, value).kind == MODULE <==> key !in {"runtime", "sdk", "mobilesdk"}
    ensures DependencyOf(key, value).name == key
  {
  }

  /** The operator is looked for anywhere in the value, but the version is what follows that many characters
      of the start. */
  function DependencyOf(key: string, value: string): Dependency {
    if Has(value, ">=") then Dependency(KindOf(key), GTE, key, value[2..])
    else if Has(value, "<=") then Dependency(KindOf(key), LTE, key, value[2..])
    else if Has(value, "<") then Dependency(KindOf(key), LT, key, value[1..])
    else if Has(value, ">") then Dependency(KindOf(key), GT, key, value[1..])
    else if Has(value, "=") then Dependency(KindOf(key), EQ, key, value[1..])
    else Dependency(KindOf(key), EQ, key, value)
  }

  function Operator(r: Requirement): string {
    match r
    case EQ => "="
    case GT => ">"
    case GTE => ">="
    case LT => "<"
    case LTE => "<="
  }

  /** Versions in which no operator can be found. */
  predicate Plain(version: string) {
    forall i :: 0 <= i < |version| ==> version[i] !in "<>="
  }

  predicate StartsWith(s: string, part: string) { StandsAt(s, part, 0) }

  /** In front of a text, an operator adds only what it forms together with the start of the text. */
  lemma HasCons(c: char, s: string, part: string, t: string)
    requires t == [c] + s
    ensures Has(t, part) <==> StartsWith(t, part) || Has(s, part)
  {
    forall i | 0 <= i <= |s|
      ensures StandsAt(t, part, i + 1) <==> StandsAt(s, part, i)
    {
      ShiftedStand(c, s, part, t, i);
    }
    if Has(t, part) && !StartsWith(t, part) {
      var i :| 0 <= i <= |t| && StandsAt(t, part, i);
      assert StandsAt(s, part, i - 1);
    }
    if Has(s, part) {
      var i :| 0 <= i <= |s| && StandsAt(s, part, i);
      assert StandsAt(t, part, i + 1);
    }
  }

  lemma ShiftedStand(c: char, s: string, part: string, t: string, i: nat)
    requires t == [c] + s
    ensures StandsAt(t, part, i + 1) <==> StandsAt(s, part, i)
  {
    if StandsAt(s, part, i) {
      forall k | 0 <= k < |part|
        ensures t[i + 1 + k] == part[k]
      {
        assert s[i + k] == part[k];
      }
    }
    if StandsAt(t, part, i + 1) {
      forall k | 0 <= k < |part|
        ensures s[i + k] == part[k]
      {
        assert t[i + 1 + k] == part[k];
      }
    }
  }

  lemma StartsWithFirst(s: string, part: string)
    requires part != ""
    ensures StartsWith(s, part) ==> s != "" && s[0] == part[0]
    ensures |part| == 1 ==> (StartsWith(s, part) <==> s != "" && s[0] == part[0])
    ensures |part| == 2 ==> (StartsWith(s, part) <==> |s| > 1 && s[0] == part[0] && s[1] == part[1])
  {
    if StartsWith(s, part) {
      assert s[0 + 0] == part[0];
      assert |part| == 2 ==> s[0 + 1] == part[1];
    }
  }

  lemma HasOne(s: string, part: string)
    requires |part| == 1
    ensures Has(s, part) <==> part[0] in s
  {
    forall i | 0 <= i < |s|
      ensures StandsAt(s, part, i) <==> s[i] == part[0]
    {
      assert StandsAt(s, part, i) ==> s[i + 0] == part[0];
    }
  }

  lemma HasTwo(s: string, part: string)
    requires |part| == 2 && Has(s, part)
    ensures part[0] in s && part[1] in s
  {
    var i :| 0 <= i <= |s| && StandsAt(s, part, i);
    assert s[i + 0] == part[0] && s[i + 1] == part[1];
  }

  /** When an operator in front of a version is recovered together with it. */
  predicate Recoverable(r: Requirement, version: string) {
    match r
    case GTE => true
    case LTE => !Has(version, ">=")
    case LT => !Has(version, ">=") && !Has(version, "<=") && !StartsWith(version, "=")
    case GT => !Has(version, ">=") && '<' !in version && !StartsWith(version, "=")
    case EQ => '<' !in version && '>' !in version
  }

  /** An equals sign in front of a text forms no operator with it. */
  lemma BehindEquals(version: string, t: string, part: string)
    requires t == "=" + version && part in [">=", "<="]
    ensures Has(t, part) <==> Has(version, part)
  {
    HasCons('=', version, part, t);
    StartsWithFirst(t, part);
  }

  /** The two-character operators in c + version, for c one of the signs. */
  lemma PairsIn(c: char, version: string, t: string)
    requires t == [c] + version && c in "<>"
    ensures Has(t, ">=") <==> (c == '>' && StartsWith(version, "=")) || Has(version, ">=")
    ensures Has(t, "<=") <==> (c == '<' && StartsWith(version, "=")) || Has(version, "<=")
  {
    HasCons(c, version, ">=", t);
    HasCons(c, version, "<=", t);
    StartsWithFirst(t, ">=");
    StartsWithFirst(t, "<=");
    StartsWithFirst(version, "=");
  }

  lemma SignsIn(version: string)
    ensures Has(version, "<") <==> '<' in version
    ensures Has(version, ">") <==> '>' in version
    ensures Has(version, "=") <==> '=' in version
    ensures Has(version, "<=") ==> '<' in version && '=' in version
    ensures Has(version, ">=") ==> '>' in version && '=' in version
  {
    HasOne(version, "<");
    HasOne(version, ">");
    HasOne(version, "=");
    if Has(version, "<=") {
      HasTwo(version, "<=");
    }
    if Has(version, ">=") {
      HasTwo(version, ">=");
    }
  }

  lemma OneSignRoundTrip(key: string, r: Requirement, version: string, t: string)
    requires r in {LT, GT, EQ} && t == Operator(r) + version
    ensures DependencyOf(key, t) == Dependency(KindOf(key), r, key, version) <==> Recoverable(r, version)
  {
    SignsIn(t);
    SignsIn(version);
    assert t[1..] == version;
    if r.EQ? {
      BehindEquals(version, t, ">=");
      BehindEquals(version, t, "<=");
    } else {
      PairsIn(Operator(r)[0], version, t);
    }
  }

  lemma TwoSignRoundTrip(key: string, r: Requirement, version: string, t: string)
    requires r in {GTE, LTE} && t == Operator(r) + version
    ensures DependencyOf(key, t) == Dependency(KindOf(key), r, key, version) <==> Recoverable(r, version)
  {
    var behind := "=" + version;
    assert t == [Operator(r)[0]] + behind;
    BehindEquals(version, behind, ">=");
    PairsIn(Operator(r)[0], behind, t);
    StartsWithFirst(behind, "=");
    assert t[2..] == version;
  }

  /** An operator in front of a version is recovered, and so is the version, exactly under these conditions. */
  lemma DependencyRoundTrip(key: string, r: Requirement, version: string)
    ensures DependencyOf(key, Operator(r) + version) == Dependency(KindOf(key), r, key, version) <==> Recoverable(r, version)
  {
    if r in {GTE, LTE} {
      TwoSignRoundTrip(key, r, version, Operator(r) + version);
    } else {
      OneSignRoundTrip(key, r, version, Operator(r) + version);
    }
  }

  /** A version on its own asks for that version exactly if it has none of the signs. */
  lemma BareVersion(key: string, version: string)
    ensures DependencyOf(key, version) == Dependency(KindOf(key), EQ, key, version) <==> Plain(version)
  {
    SignsIn(version);
    assert Plain(version) <==> '<' !in version && '>' !in version && '=' !in version;
  }

  /** Each operator in front of a version without signs. */
  lemma FiveOperators(key: string, version: string)
    requires forall c :: c in version ==> c != '<' && c != '>' && c != '='
    ensures var d := DependencyOf(key, version); d.requirement == EQ && d.version == version
    ensures var d := DependencyOf(key, "=" + version); d.requirement == EQ && d.version == version
    ensures var d := DependencyOf(key, ">" + version); d.requirement == GT && d.version == version
    ensures var d := DependencyOf(key, ">=" + version); d.requirement == GTE && d.version == version
    ensures var d := DependencyOf(key, "<" + version); d.requirement == LT && d.version == version
    ensures var d := DependencyOf(key, "<=" + version); d.requirement == LTE && d.version == version
  {
    assert Plain(version) by {
      forall i | 0 <= i < |version|
        ensures version[i] !in "<>="
      {
        assert version[i] in version;
      }
    }
    BareVersion(key, version);
    DependencyRoundTrip(key, EQ, version);
    DependencyRoundTrip(key, GT, version);
    DependencyRoundTrip(key, GTE, version);
    DependencyRoundTrip(key, LT, version);
    DependencyRoundTrip(key, LTE, version);
    assert version != "" ==> version[0] in version;
  }

  /** A version with a sign inside is torn: its first character is taken for the operator. */
  lemma TornVersion()
    ensures DependencyOf("m", "1.0<2") == Dependency(MODULE, LT, "m", ".0<2")
  {
    SignsIn("1.0<2");
    assert '<' == "1.0<2"[3];
    assert "1.0<2"[1..] == ".0<2";
  }

  // ---------------------------------------------------------------- applications

  datatype Info = Info(name: string, id: string, guid: string, image: string, publisher: string, url: string,
                       version: string, stream: string, logLevel: string, dependencies: seq<Dependency>)

  /** The value of the last entry with a key. */
  function LastValue(entries: seq<Entry>, key: string): Option<string> {
    if entries == [] then None
    else if entries[|entries| - 1].key == key then Some(entries[|entries| - 1].value)
    else LastValue(entries[..|entries| - 1], key)
  }

  function ValueOr(o: Option<string>, default: string): string { if o.Some? then o.value else default }

  predicate IsHeader(key: string) { key != "" && key[0] == '#' }

  /** One dependency for each entry that is no header, in order. */
  function DependenciesOf(entries: seq<Entry>): seq<Dependency> {
    if entries == [] then []
    else
      var e := entries[|entries| - 1];
      DependenciesOf(entries[..|entries| - 1]) + (if IsHeader(e.key) then [] else [DependencyOf(e.key, e.value)])
  }

  /** `resource` joins the directory of the resources and a file name. */
  function InfoOf(entries: seq<Entry>, resource: string -> string): Info {
    Info(
      ValueOr(LastValue(entries, "#appname"), ""), ValueOr(LastValue(entries, "#appid"), ""),
      ValueOr(LastValue(entries, "#guid"), ""),
      match LastValue(entries, "#image") { case None => "" case Some(v) => resource(v) },
      ValueOr(LastValue(entries, "#publisher"), ""), ValueOr(LastValue(entries, "#url"), ""),
      ValueOr(LastValue(entries, "#version"), ""), ValueOr(LastValue(entries, "#stream"), "production"),
      ValueOr(LastValue(entries, "#loglevel"), ""),
      DependenciesOf(entries))
  }

  /** Keys that start with a hash sign give no dependency. */
  lemma DependenciesNext(before: seq<Entry>, e: Entry)
    ensures DependenciesOf([]) == []
    ensures DependenciesOf(before + [e]) ==
      DependenciesOf(before) + if e.key != "" && e.key[0] == '#' then [] else [DependencyOf(e.key, e.value)]
  {
    LastValueSnoc(before, e, "");
  }

  lemma LastValueSnoc(before: seq<Entry>, e: Entry, key: string)
    ensures LastValue(before + [e], key) == if e.key == key then Some(e.value) else LastValue(before, key)
    ensures DependenciesOf(before + [e]) == DependenciesOf(before) + if IsHeader(e.key) then [] else [DependencyOf(e.key, e.value)]
  {
    assert (before + [e])[..|before|] == before;
  }

  /** One entry changes one field, or adds a dependency, or is skipped. */
  function Absorbed(was: Info, e: Entry, resource: string -> string): Info {
    if e.key == "#appname" then was.(name := e.value)
    else if e.key == "#appid" then was.(id := e.value)
    else if e.key == "#guid" then was.(guid := e.value)
    else if e.key == "#image" then was.(image := resource(e.value))
    else if e.key == "#publisher" then was.(publisher := e.value)
    else if e.key == "#url" then was.(url := e.value)
    else if e.key == "#version" then was.(version := e.value)
    else if e.key == "#stream" then was.(stream := e.value)
    else if e.key == "#loglevel" then was.(logLevel := e.value)
    else if IsHeader(e.key) then was
    else was.(dependencies := was.dependencies + [DependencyOf(e.key, e.value)])
  }

  /** Absorbing the entries one by one gives the last value for each key. */
  lemma AbsorbedIsNext(before: seq<Entry>, e: Entry, resource: string -> string, after: seq<Entry>)
    requires after == before + [e]
    ensures Absorbed(InfoOf(before, resource), e, resource) == InfoOf(after, resource)
  {
    LastValueSnoc(before, e, "#appname");
    LastValueSnoc(before, e, "#appid");
    LastValueSnoc(before, e, "#guid");
    LastValueSnoc(before, e, "#image");
    LastValueSnoc(before, e, "#publisher");
    LastValueSnoc(before, e, "#url");
    LastValueSnoc(before, e, "#version");
    LastValueSnoc(before, e, "#stream");
    LastValueSnoc(before, e, "#loglevel");
  }

  class Application {
    var name: string
    var id: string
    var guid: string
    var image: string
    var publisher: string
    var url: string
    var version: string
    var stream: string
    var logLevel: string
    var dependencies: seq<Dependency>
    var modules: seq<Component>
    var sdks: seq<Component>
    var runtime: Option<Component>

    constructor ()
      ensures Contents() == Info("", "", "", "", "", "", "", "production", "", [])
    {
      name, id, guid, image, publisher := "", "", "", "", "";
      url, version, stream, logLevel, dependencies := "", "", "production", "", [];
      modules, sdks, runtime := [], [], None;
    }

    function Contents(): Info
      reads this
    {
      Info(name, id, guid, image, publisher, url, version, stream, logLevel, dependencies)
    }

    /** Each field has the last value given for its key. */
    ghost predicate HasFields(entries: seq<Entry>, resource: string -> string)
      reads this
    {
      && name == ValueOr(LastValue(entries, "#appname"), "") && id == ValueOr(LastValue(entries, "#appid"), "")
      && guid == ValueOr(LastValue(entries, "#guid"), "") && publisher == ValueOr(LastValue(entries, "#publisher"), "")
      && url == ValueOr(LastValue(entries, "#url"), "") && version == ValueOr(LastValue(entries, "#version"), "")
      && stream == ValueOr(LastValue(entries, "#stream"), "production") && logLevel == ValueOr(LastValue(entries, "#loglevel"), "")
      && image == match LastValue(entries, "#image") { case None => "" case Some(v) => resource(v) }
    }

    /** The body of the loop over the manifest. */
    method Take(key: string, value: string, resource: string -> string)
      modifies this
      ensures Contents() == Absorbed(old(Contents()), Entry(key, value), resource)
    {
      if key == "#appname" {
        name := value;
      } else if key == "#appid" {
        id := value;
      } else if key == "#guid" {
        guid := value;
      } else if key == "#image" {
        image := resource(value);
      } else if key == "#publisher" {
        publisher := value;
      } else if key == "#url" {
        url := value;
      } else if key == "#version" {
        version := value;
      } else if key == "#stream" {
        stream := value;
      } else if key == "#loglevel" {
        logLevel := value;
      } else if IsHeader(key) {
      } else {
        dependencies := dependencies + [DependencyOf(key, value)];
      }
    }

    static method NewApplication(file: Option<string>, resource: string -> string) returns (app: Application?)
      ensures app == null <==> file.None? || Entries(Lines(file.value)) == []
      ensures app != null ==> fresh(app) && app.Contents() == InfoOf(Entries(Lines(file.value)), resource)
      ensures app != null ==> app.HasFields(Entries(Lines(file.value)), resource)
    {
      var manifest := ReadManifestFile(file);
      if |manifest| == 0 {
        return null;
      }
      app := new Application();
      for i := 0 to |manifest|
        invariant fresh(app) && app.Contents() == InfoOf(manifest[..i], resource)
      {
        app.Take(manifest[i].key, manifest[i].value, resource);
        AbsorbedIsNext(manifest[..i], manifest[i], resource, manifest[..i + 1]);
      }
      assert manifest[..|manifest|] == manifest;
    }

    method ResolveDependencies(components: seq<Component>) returns (unresolved: seq<Dependency>)
      modifies this`modules, this`sdks, this`runtime
      ensures unresolved == Unresolved(dependencies, components)
      ensures modules == Resolved(dependencies, components, {MODULE})
      ensures sdks == Resolved(dependencies, components, {SDK, MOBILESDK})
      ensures var runtimes := Resolved(dependencies, components, {RUNTIME});
        runtime == if runtimes == [] then None else Some(runtimes[|runtimes| - 1])
    {
      modules, sdks, runtime, unresolved := [], [], None, [];
      ghost var ds, runtimes := dependencies, [];
      for i := 0 to |dependencies|
        invariant runtime == if runtimes == [] then None else Some(runtimes[|runtimes| - 1])
        invariant ResolvedUpTo(ds, i, components, unresolved, modules, sdks, runtimes)
      {
        ResolvedNext(ds, i, components, unresolved, modules, sdks, runtimes);
        var d := dependencies[i];
        var c := ResolveDependency(d, components);
        if c.None? {
          unresolved := unresolved + [d];
        } else if c.value.kind == MODULE {
          modules := modules + [c.value];
        } else if c.value.kind == SDK {
          sdks := sdks + [c.value];
        } else if c.value.kind == MOBILESDK {
          sdks := sdks + [c.value];
        } else if c.value.kind == RUNTIME {
          runtime, runtimes := c, runtimes + [c.value];
        }
      }
      assert ds[..|ds|] == ds;
    }
  }

  // ---------------------------------------------------------------- what is recovered

  /** Trimmed and on one line; for a name also without colon and not taken for a header. */
  predicate Clean(s: string) { Tight(s) && '\n' !in s }

  predicate CleanOrAbsent(s: string) { s == "" || Clean(s) }

  predicate CleanModule(m: Module) {
    Clean(m.name) && Clean(m.version) && ':' !in m.name && m.name[0] != '#'
  }

  predicate CleanBuild(b: Build) {
    && Clean(b.name) && Clean(b.id) && Clean(b.guid) && Clean(b.own)
    && CleanOrAbsent(b.version) && CleanOrAbsent(b.image) && CleanOrAbsent(b.publisher) && CleanOrAbsent(b.url)
    && forall i :: 0 <= i < |b.modules| ==> CleanModule(b.modules[i])
  }

  predicate CleanLines(lines: seq<Line>) {
    forall i :: 0 <= i < |lines| ==> OneLine(lines[i]) && TightLine(lines[i])
  }

  lemma {:induction false} ModuleLinesClean(b: Build, modules: seq<Module>)
    requires forall i :: 0 <= i < |modules| ==> CleanModule(modules[i])
    ensures CleanPart(ModuleLines(b, modules), false)
  {
    if modules != [] {
      ModuleLinesClean(b, modules[1..]);
    }
  }

  predicate HeaderKey(key: string) { IsHeader(key) && Tight(key) && '\n' !in key && ':' !in key }

  lemma HeaderKeys()
    ensures HeaderKey("#appname") && HeaderKey("#appid") && HeaderKey("#guid")
    ensures HeaderKey("#version") && HeaderKey("#image") && HeaderKey("#publisher") && HeaderKey("#url")
  {
  }

  /** Clean lines that are all headers, or all no headers. */
  predicate CleanPart(lines: seq<Line>, headers: bool) {
    CleanLines(lines) && forall i :: 0 <= i < |lines| ==> IsHeader(lines[i].key) == headers
  }

  lemma PartsClean(a: seq<Line>, b: seq<Line>, c: seq<Line>, headers: bool)
    requires CleanPart(a, headers) && CleanPart(b, headers) && c == a + b
    ensures CleanPart(c, headers)
  {
  }

  lemma HeaderLineClean(key: string, value: string)
    requires HeaderKey(key) && CleanOrAbsent(value)
    ensures Clean(value) ==> CleanPart([Line(key, true, value)], true)
    ensures CleanPart(Optional(key, value), true)
  {
  }

  lemma RequiredLinesClean(b: Build)
    requires CleanBuild(b)
    ensures CleanPart(RequiredLines(b), true)
  {
    HeaderKeys();
    HeaderLineClean("#appname", b.name);
    HeaderLineClean("#appid", b.id);
    HeaderLineClean("#guid", b.guid);
    var l1 := [Line("#appname", true, b.name)] + [Line("#appid", true, b.id)];
    PartsClean([Line("#appname", true, b.name)], [Line("#appid", true, b.id)], l1, true);
    PartsClean(l1, [Line("#guid", true, b.guid)], RequiredLines(b), true);
  }

  lemma OptionalLinesClean(b: Build)
    requires CleanBuild(b)
    ensures CleanPart(OptionalLines(b), true)
  {
    HeaderKeys();
    HeaderLineClean("#version", b.version);
    HeaderLineClean("#image", b.image);
    HeaderLineClean("#publisher", b.publisher);
    HeaderLineClean("#url", b.url);
    var l1 := Optional("#version", b.version) + Optional("#image", b.image);
    var l2 := l1 + Optional("#publisher", b.publisher);
    PartsClean(Optional("#version", b.version), Optional("#image", b.image), l1, true);
    PartsClean(l1, Optional("#publisher", b.publisher), l2, true);
    PartsClean(l2, Optional("#url", b.url), OptionalLines(b), true);
  }

  lemma HeaderLinesClean(b: Build)
    requires CleanBuild(b)
    ensures CleanPart(HeaderLines(b), true)
  {
    RequiredLinesClean(b);
    OptionalLinesClean(b);
    PartsClean(RequiredLines(b), OptionalLines(b), HeaderLines(b), true);
  }

  lemma RuntimeLinesClean(b: Build)
    requires CleanBuild(b)
    ensures CleanPart(RuntimeLines(b), false)
  {
  }

  /** The last line with a key, on the lines themselves. */
  function LastLine(lines: seq<Line>, key: string): Option<string> {
    if lines == [] then None
    else if LastLine(lines[1..], key).Some? then LastLine(lines[1..], key)
    else if lines[0].key == key then Some(lines[0].value)
    else None
  }

  lemma {:induction false} LastValueCons(e: Entry, rest: seq<Entry>, all: seq<Entry>, key: string)
    requires all == [e] + rest
    ensures LastValue(all, key) ==
      if LastValue(rest, key).Some? then LastValue(rest, key) else if e.key == key then Some(e.value) else None
    decreases |rest|
  {
    var n := |all| - 1;
    if rest == [] {
      assert LastValue(all[..n], key) == None;
    } else {
      assert all[..n] == [e] + rest[..n - 1];
      LastValueCons(e, rest[..n - 1], all[..n], key);
    }
  }

  lemma {:induction false} LastLineIsLastValue(lines: seq<Line>, key: string)
    ensures LastValue(Written(lines), key) == LastLine(lines, key)
  {
    if lines != [] {
      LastLineIsLastValue(lines[1..], key);
      LastValueCons(Entry(lines[0].key, lines[0].value), Written(lines[1..]), Written(lines), key);
    }
  }

  lemma {:induction false} NoHeaderNoValue(lines: seq<Line>, key: string)
    requires IsHeader(key) && forall i :: 0 <= i < |lines| ==> !IsHeader(lines[i].key)
    ensures LastLine(lines, key) == None
  {
    if lines != [] {
      NoHeaderNoValue(lines[1..], key);
    }
  }

  lemma {:induction false} LastLineConcat(a: seq<Line>, b: seq<Line>, c: seq<Line>, key: string)
    requires c == a + b
    ensures LastLine(c, key) == if LastLine(b, key).Some? then LastLine(b, key) else LastLine(a, key)
  {
    if a == [] {
      assert c == b;
    } else {
      assert c[1..] == a[1..] + b;
      LastLineConcat(a[1..], b, c[1..], key);
    }
  }

  lemma OnlyLine(line: Line, key: string)
    ensures LastLine([line], key) == if line.key == key then Some(line.value) else None
  {
    assert [line][1..] == [];
  }

  function OrAbsent(s: string): Option<string> { if s == "" then None else Some(s) }

  /** The header value of each key of a generated manifest. */
  function HeaderValue(b: Build, key: string): Option<string> {
    if key == "#appname" then Some(b.name)
    else if key == "#appid" then Some(b.id)
    else if key == "#guid" then Some(b.guid)
    else if key == "#version" then OrAbsent(b.version)
    else if key == "#image" then OrAbsent(b.image)
    else if key == "#publisher" then OrAbsent(b.publisher)
    else if key == "#url" then OrAbsent(b.url)
    else None
  }

  lemma LastOptional(a: seq<Line>, key: string, value: string, k: string)
    ensures LastLine(a + Optional(key, value), k) == if value != "" && k == key then Some(value) else LastLine(a, k)
  {
    LastLineConcat(a, Optional(key, value), a + Optional(key, value), k);
    if value != "" {
      OnlyLine(Line(key, true, value), k);
    }
  }

  lemma RequiredRecovered(b: Build, key: string)
    ensures LastLine(RequiredLines(b), key) == if key in ["#appname", "#appid", "#guid"] then HeaderValue(b, key) else None
  {
    var l := RequiredLines(b);
    LastLineConcat([l[0]], [l[1]] + [l[2]], l, key);
    LastLineConcat([l[1]], [l[2]], [l[1]] + [l[2]], key);
    OnlyLine(l[0], key);
    OnlyLine(l[1], key);
    OnlyLine(l[2], key);
  }

  lemma HeaderIsRecovered(b: Build, key: string)
    ensures LastLine(HeaderLines(b), key) == HeaderValue(b, key)
  {
    RequiredRecovered(b, key);
    var l1 := Optional("#version", b.version);
    var l2 := l1 + Optional("#image", b.image);
    var l3 := l2 + Optional("#publisher", b.publisher);
    assert [] + l1 == l1;
    LastOptional([], "#version", b.version, key);
    LastOptional(l1, "#image", b.image, key);
    LastOptional(l2, "#publisher", b.publisher, key);
    LastOptional(l3, "#url", b.url, key);
    LastLineConcat(RequiredLines(b), OptionalLines(b), HeaderLines(b), key);
  }

  /** The dependencies of lines that are no headers. */
  function DependenciesOfLines(lines: seq<Line>): seq<Dependency> {
    if lines == [] then [] else [DependencyOf(lines[0].key, lines[0].value)] + DependenciesOfLines(lines[1..])
  }

  lemma {:induction false} DependenciesOfCons(e: Entry, rest: seq<Entry>, all: seq<Entry>)
    requires all == [e] + rest
    ensures DependenciesOf(all) == (if IsHeader(e.key) then [] else [DependencyOf(e.key, e.value)]) + DependenciesOf(rest)
    decreases |rest|
  {
    var n := |all| - 1;
    if rest == [] {
      assert DependenciesOf(all[..n]) == [];
    } else {
      assert all[..n] == [e] + rest[..n - 1];
      DependenciesOfCons(e, rest[..n - 1], all[..n]);
    }
  }

  lemma {:induction false} DependenciesAreLines(headers: seq<Line>, others: seq<Line>, all: seq<Line>)
    requires all == headers + others
    requires forall i :: 0 <= i < |headers| ==> IsHeader(headers[i].key)
    requires forall i :: 0 <= i < |others| ==> !IsHeader(others[i].key)
    ensures DependenciesOf(Written(all)) == DependenciesOfLines(others)
    decreases |all|
  {
    if all != [] {
      DependenciesOfCons(Entry(all[0].key, all[0].value), Written(all[1..]), Written(all));
      if headers == [] {
        assert all == others;
        DependenciesAreLines([], others[1..], all[1..]);
      } else {
        assert all[1..] == headers[1..] + others;
        DependenciesAreLines(headers[1..], others, all[1..]);
      }
    }
  }

  /** One dependency for each line; it asks for exactly the written version if and only if that is plain. */
  lemma {:induction false} PlainDependencies(lines: seq<Line>)
    ensures |DependenciesOfLines(lines)| == |lines|
    ensures forall i :: 0 <= i < |lines| ==>
      (DependenciesOfLines(lines)[i] == Dependency(KindOf(lines[i].key), EQ, lines[i].key, lines[i].value)
       <==> Plain(lines[i].value))
  {
    if lines != [] {
      BareVersion(lines[0].key, lines[0].value);
      PlainDependencies(lines[1..]);
    }
  }

  lemma ManifestComesBack(b: Build)
    requires CleanBuild(b)
    ensures Entries(Lines(TextOf(ManifestLines(b)))) == Written(ManifestLines(b)) != []
  {
    HeaderLinesClean(b);
    RuntimeLinesClean(b);
    ModuleLinesClean(b, b.modules);
    var lines := ManifestLines(b);
    assert CleanLines(lines);
    ReadWhatWasPrinted(lines);
    WrittenComesBack(lines);
  }

  lemma HeaderOfManifest(b: Build, key: string)
    requires CleanBuild(b) && IsHeader(key)
    ensures LastValue(Written(ManifestLines(b)), key) == HeaderValue(b, key)
  {
    var others := RuntimeLines(b) + ModuleLines(b, b.modules);
    HeaderLinesClean(b);
    RuntimeLinesClean(b);
    ModuleLinesClean(b, b.modules);
    NoHeaderNoValue(others, key);
    assert ManifestLines(b) == HeaderLines(b) + others;
    LastLineConcat(HeaderLines(b), others, ManifestLines(b), key);
    HeaderIsRecovered(b, key);
    LastLineIsLastValue(ManifestLines(b), key);
  }

  lemma DependenciesOfManifest(b: Build)
    requires CleanBuild(b)
    ensures DependenciesOf(Written(ManifestLines(b))) == DependenciesOfLines(RuntimeLines(b) + ModuleLines(b, b.modules))
  {
    var others := RuntimeLines(b) + ModuleLines(b, b.modules);
    HeaderLinesClean(b);
    RuntimeLinesClean(b);
    ModuleLinesClean(b, b.modules);
    assert ManifestLines(b) == HeaderLines(b) + others;
    DependenciesAreLines(HeaderLines(b), others, ManifestLines(b));
  }

  lemma HeaderValues(b: Build)
    ensures HeaderValue(b, "#appname") == Some(b.name) && HeaderValue(b, "#appid") == Some(b.id)
    ensures HeaderValue(b, "#guid") == Some(b.guid) && HeaderValue(b, "#image") == OrAbsent(b.image)
    ensures HeaderValue(b, "#publisher") == OrAbsent(b.publisher) && HeaderValue(b, "#url") == OrAbsent(b.url)
    ensures HeaderValue(b, "#version") == OrAbsent(b.version)
    ensures HeaderValue(b, "#stream") == None && HeaderValue(b, "#loglevel") == None
  {
  }

  lemma HeadersOfManifest(b: Build, entries: seq<Entry>)
    requires CleanBuild(b) && entries == Written(ManifestLines(b))
    ensures LastValue(entries, "#appname") == Some(b.name) && LastValue(entries, "#appid") == Some(b.id)
    ensures LastValue(entries, "#guid") == Some(b.guid) && LastValue(entries, "#image") == OrAbsent(b.image)
    ensures LastValue(entries, "#publisher") == OrAbsent(b.publisher) && LastValue(entries, "#url") == OrAbsent(b.url)
    ensures LastValue(entries, "#version") == OrAbsent(b.version)
    ensures LastValue(entries, "#stream") == None && LastValue(entries, "#loglevel") == None
  {
    HeaderValues(b);
    HeaderOfManifest(b, "#appname");
    HeaderOfManifest(b, "#appid");
    HeaderOfManifest(b, "#guid");
    HeaderOfManifest(b, "#image");
    HeaderOfManifest(b, "#publisher");
    HeaderOfManifest(b, "#url");
    HeaderOfManifest(b, "#version");
    HeaderOfManifest(b, "#stream");
    HeaderOfManifest(b, "#loglevel");
  }

  /** An application that reads the manifest of a build has the build's header fields and one dependency for
      each sdk, runtime and module line, in order. */
  lemma ApplicationIsRecovered(b: Build, resource: string -> string)
    requires CleanBuild(b)
    ensures InfoOf(Entries(Lines(TextOf(ManifestLines(b)))), resource)
         == Info(b.name, b.id, b.guid, if b.image == "" then "" else resource(b.image), b.publisher, b.url, b.version,
                 "production", "", DependenciesOfLines(RuntimeLines(b) + ModuleLines(b, b.modules)))
  {
    var entries := Written(ManifestLines(b));
    ManifestComesBack(b);
    HeadersOfManifest(b, entries);
    DependenciesOfManifest(b);
  }

  /** The runtime line of a build becomes a dependency on a runtime, its sdk line one on an SDK, and both ask for the
      version of the build if that is plain. */
  lemma RuntimeDependencies(b: Build, resource: string -> string)
    requires CleanBuild(b)
    ensures var ds := InfoOf(Entries(Lines(TextOf(ManifestLines(b)))), resource).dependencies; var k := if b.sdk then 1 else 0;
      && |ds| == k + 1 + |ModuleLines(b, b.modules)|
      && (b.sdk ==> ds[0].kind == SDK && ds[0].name == "sdk") && ds[k].kind == RUNTIME && ds[k].name == "runtime"
      && (Plain(b.own) ==> ds[k].requirement == EQ && ds[k].version == b.own)
  {
    var lines := RuntimeLines(b) + ModuleLines(b, b.modules);
    var k := if b.sdk then 1 else 0;
    ApplicationIsRecovered(b, resource);
    PlainDependencies(lines);
    DependencyAt(lines, 0);
    DependencyAt(lines, k);
    DependencyKinds("runtime", b.own);
    DependencyKinds("sdk", b.own);
  }

  lemma {:induction false} DependencyAt(lines: seq<Line>, i: nat)
    requires i < |lines|
    ensures i < |DependenciesOfLines(lines)| && DependenciesOfLines(lines)[i] == DependencyOf(lines[i].key, lines[i].value)
  {
    if i > 0 {
      DependencyAt(lines[1..], i - 1);
    }
  }

  // ---------------------------------------------------------------- from the build to the components

  /** The component a manifest line means: the first bundled one of its type and name, whatever its version, or else the
      first installed one that has exactly its version, by rank. */
  function Meant(line: Line, bundled: seq<Component>, installed: seq<Component>): Option<Component> {
    match FirstNamed(KindOf(line.key), line.key, bundled)
    case Some(c) => Some(c)
    case None => FirstOfRank(KindOf(line.key), line.key, line.value, installed)
  }

  /** Whatever a build writes into its manifest, the application that reads it finds for each line with a plain version
      just the component the line means. */
  lemma ManifestResolves(b: Build, resource: string -> string, bundled: seq<Component>, found: seq<Component>, i: nat)
    requires CleanBuild(b) && (forall c :: c in bundled ==> c.bundled) && (forall c :: c in found ==> !c.bundled)
    requires var lines := RuntimeLines(b) + ModuleLines(b, b.modules); i < |lines| && Plain(lines[i].value)
    ensures var lines := RuntimeLines(b) + ModuleLines(b, b.modules);
      var ds := InfoOf(Entries(Lines(TextOf(ManifestLines(b)))), resource).dependencies;
      |ds| == |lines| && FirstAcceptable(ds[i], Available(bundled, found)) == Meant(lines[i], bundled, Collected(found))
  {
    var lines := RuntimeLines(b) + ModuleLines(b, b.modules);
    ApplicationIsRecovered(b, resource);
    PlainDependencies(lines);
    ExactResolves(DependenciesOfLines(lines)[i], bundled, found);
  }

  /** The components of some types that the lines mean, in order. */
  function AllMeant(lines: seq<Line>, bundled: seq<Component>, installed: seq<Component>, kinds: set<ComponentType>): seq<Component> {
    if lines == [] then []
    else
      var n := |lines| - 1;
      var c := Meant(lines[n], bundled, installed);
      AllMeant(lines[..n], bundled, installed, kinds) + if c.Some? && c.value.kind in kinds then [c.value] else []
  }

  lemma {:induction false} DependenciesSnoc(lines: seq<Line>, line: Line)
    ensures DependenciesOfLines(lines + [line]) == DependenciesOfLines(lines) + [DependencyOf(line.key, line.value)]
  {
    if lines != [] {
      assert (lines + [line])[1..] == lines[1..] + [line];
      DependenciesSnoc(lines[1..], line);
    } else {
      assert [line][1..] == [] && lines + [line] == [line];
    }
  }

  /** So the lists that ResolveDependencies fills are those of the components meant. */
  lemma {:induction false} ResolvedAreMeant(lines: seq<Line>, bundled: seq<Component>, found: seq<Component>, kinds: set<ComponentType>)
    requires (forall c :: c in bundled ==> c.bundled) && (forall c :: c in found ==> !c.bundled)
    requires forall i :: 0 <= i < |lines| ==> Plain(lines[i].value)
    ensures Resolved(DependenciesOfLines(lines), Available(bundled, found), kinds) == AllMeant(lines, bundled, Collected(found), kinds)
  {
    if lines != [] {
      var n := |lines| - 1;
      var line := lines[n];
      ResolvedAreMeant(lines[..n], bundled, found, kinds);
      assert lines == lines[..n] + [line];
      DependenciesSnoc(lines[..n], line);
      BareVersion(line.key, line.value);
      ExactResolves(DependencyOf(line.key, line.value), bundled, found);
      var ds := DependenciesOfLines(lines);
      assert ds[..|ds| - 1] == DependenciesOfLines(lines[..n]);
    }
  }
}
