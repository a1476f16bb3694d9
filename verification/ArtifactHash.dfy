/**
 The text that the artifact hash is computed over: one line per source spec, per checksum and per
 plugin, the enforcement flag and the MCP surface. It is proved to determine the hashed inputs: two
 manifests give the same text exactly when they agree on every input, up to the order in which a
 plugin lists its host functions and up to absent versus empty MCP strings.
 */
module ArtifactHash {
  import opened Lex
  import opened Sorting
  import opened Text

  datatype SourceSpec = SourceSpec(file: string, sha256: string)

  /** A checksum entry; the map is listed in key order. */
  datatype Checksum = Checksum(key: string, value: string)

  datatype Plugin = Plugin(
    name: string, pluginType: string, version: string, bodyAccess: bool, hostFunctions: seq<string>)

  datatype McpConfig = McpConfig(enabled: bool, serverName: Option<string>, serverVersion: Option<string>)

  datatype Inputs = Inputs(
    specs: seq<SourceSpec>, checksums: seq<Checksum>, enforced: bool, plugins: seq<Plugin>, mcp: McpConfig)

  // ---------- The text ----------

  function Show(b: bool): string { if b then "true" else "false" }

  function OrEmpty(s: Option<string>): string { if s.Some? then s.value else "" }

  function SpecLine(s: SourceSpec): string { "source_spec:" + s.file + ['='] + s.sha256 }

  function ChecksumLine(c: Checksum): string { c.key + ['='] + c.value }

  function EnforcedLine(enforced: bool): string { "capabilities_enforced=" + Show(enforced) }

  function SortedNames(names: seq<string>): seq<string> { Sort(StrLe, names) }

  function PluginFields(p: Plugin): seq<string> {
    ["plugin:" + p.name, "type=" + p.pluginType, "version=" + p.version, "body_access=" + Show(p.bodyAccess),
     "host_functions=" + Join(SortedNames(p.hostFunctions), ',')]
  }

  function PluginLine(p: Plugin): string { Join(PluginFields(p), '\t') }

  function McpFields(m: McpConfig): seq<string> {
    ["mcp:enabled=" + Show(m.enabled), "server_name=" + OrEmpty(m.serverName), "server_version=" + OrEmpty(m.serverVersion)]
  }

  function McpLine(m: McpConfig): string { Join(McpFields(m), '\t') }

  function Lines(m: Inputs): seq<string> {
    Map(SpecLine, m.specs) + Map(ChecksumLine, m.checksums) + [EnforcedLine(m.enforced)]
    + Map(PluginLine, m.plugins) + [McpLine(m.mcp)]
  }

  function Terminated(line: string): string { line + ['\n'] }

  /** The text fed to the hasher. */
  function HashText(m: Inputs): string { Flat(Terminated, Lines(m)) }

  /** Appends a line per element, as each of the hasher's update loops does. */
  lemma TextSnoc<A>(f: A -> string, xs: seq<A>, i: nat)
    requires i < |xs|
    ensures Flat(Terminated, Map(f, xs[..i + 1])) == Flat(Terminated, Map(f, xs[..i])) + Terminated(f(xs[i]))
  {
    assert xs[..i + 1] == xs[..i] + [xs[i]];
    MapConcat(f, xs[..i], [xs[i]]);
    assert Map(f, [xs[i]]) == [f(xs[i])];
    FlatConcat(Terminated, Map(f, xs[..i]), [f(xs[i])]);
    FlatOne(Terminated, f(xs[i]));
  }

  method AppendSpecs(text: string, specs: seq<SourceSpec>) returns (longer: string)
    ensures longer == text + Flat(Terminated, Map(SpecLine, specs))
  {
    longer := text;
    for i := 0 to |specs|
      invariant longer == text + Flat(Terminated, Map(SpecLine, specs[..i]))
    {
      TextSnoc(SpecLine, specs, i);
      Assoc(text, Flat(Terminated, Map(SpecLine, specs[..i])), Terminated(SpecLine(specs[i])));
      longer := longer + (SpecLine(specs[i]) + ['\n']);
    }
    assert specs[..|specs|] == specs;
  }

  method AppendChecksums(text: string, checksums: seq<Checksum>) returns (longer: string)
    ensures longer == text + Flat(Terminated, Map(ChecksumLine, checksums))
  {
    longer := text;
    for i := 0 to |checksums|
      invariant longer == text + Flat(Terminated, Map(ChecksumLine, checksums[..i]))
    {
      TextSnoc(ChecksumLine, checksums, i);
      Assoc(text, Flat(Terminated, Map(ChecksumLine, checksums[..i])), Terminated(ChecksumLine(checksums[i])));
      longer := longer + (ChecksumLine(checksums[i]) + ['\n']);
    }
    assert checksums[..|checksums|] == checksums;
  }

  method AppendPlugins(text: string, plugins: seq<Plugin>) returns (longer: string)
    ensures longer == text + Flat(Terminated, Map(PluginLine, plugins))
  {
    longer := text;
    for i := 0 to |plugins|
      invariant longer == text + Flat(Terminated, Map(PluginLine, plugins[..i]))
    {
      TextSnoc(PluginLine, plugins, i);
      Assoc(text, Flat(Terminated, Map(PluginLine, plugins[..i])), Terminated(PluginLine(plugins[i])));
      longer := longer + (PluginLine(plugins[i]) + ['\n']);
    }
    assert plugins[..|plugins|] == plugins;
  }

  method AppendCapabilities(text: string, enforced: bool, plugins: seq<Plugin>, mcp: McpConfig) returns (longer: string)
    ensures longer == text + Terminated(EnforcedLine(enforced)) + Flat(Terminated, Map(PluginLine, plugins))
                      + Terminated(McpLine(mcp))
  {
    longer := AppendPlugins(text + Terminated(EnforcedLine(enforced)), plugins);
    longer := longer + Terminated(McpLine(mcp));
  }

  method ComputeHashText(m: Inputs) returns (text: string)
    ensures text == HashText(m)
  {
    text := AppendSpecs([], m.specs);
    assert text == Flat(Terminated, Map(SpecLine, m.specs));
    text := AppendChecksums(text, m.checksums);
    text := AppendCapabilities(text, m.enforced, m.plugins, m.mcp);
    TextParts(m);
  }

  lemma TextParts(m: Inputs)
    ensures HashText(m)
         == Flat(Terminated, Map(SpecLine, m.specs)) + Flat(Terminated, Map(ChecksumLine, m.checksums))
            + Terminated(EnforcedLine(m.enforced)) + Flat(Terminated, Map(PluginLine, m.plugins))
            + Terminated(McpLine(m.mcp))
  {
    var a, b, c, d, e := Map(SpecLine, m.specs), Map(ChecksumLine, m.checksums), [EnforcedLine(m.enforced)],
                         Map(PluginLine, m.plugins), [McpLine(m.mcp)];
    FlatConcat(Terminated, a + b + c + d, e);
    FlatConcat(Terminated, a + b + c, d);
    FlatConcat(Terminated, a + b, c);
    FlatConcat(Terminated, a, b);
    FlatOne(Terminated, c[0]);
    FlatOne(Terminated, e[0]);
  }

  // ---------- Fields that do not contain the separators of their line ----------

  predicate Plain(s: string) { '\n' !in s && '\t' !in s }

  predicate CleanSpec(s: SourceSpec) { '\n' !in s.file && '\n' !in s.sha256 && '=' !in s.sha256 }

  /** Checksum keys are `routes.json` and the plugin paths. */
  predicate CleanChecksum(c: Checksum) {
    && '\n' !in c.key && '\n' !in c.value && '=' !in c.value
    && (c.key == "routes.json" || "plugins/" <= c.key)
  }

  predicate CleanPlugin(p: Plugin) {
    && Plain(p.name) && Plain(p.pluginType) && Plain(p.version)
    && forall h | h in p.hostFunctions :: h != [] && ',' !in h && Plain(h)
  }

  predicate CleanMcp(m: McpConfig) { Plain(OrEmpty(m.serverName)) && Plain(OrEmpty(m.serverVersion)) }

  ghost predicate Clean(m: Inputs) {
    && (forall s | s in m.specs :: CleanSpec(s)) && (forall c | c in m.checksums :: CleanChecksum(c))
    && (forall p | p in m.plugins :: CleanPlugin(p)) && CleanMcp(m.mcp)
  }

  /** Equal up to what the text deliberately forgets. */
  predicate SamePlugin(p: Plugin, q: Plugin) {
    && p.name == q.name && p.pluginType == q.pluginType && p.version == q.version && p.bodyAccess == q.bodyAccess
    && multiset(p.hostFunctions) == multiset(q.hostFunctions)
  }

  ghost predicate Same(m: Inputs, n: Inputs) {
    && m.specs == n.specs && m.checksums == n.checksums && m.enforced == n.enforced
    && |m.plugins| == |n.plugins| && (forall i | 0 <= i < |m.plugins| :: SamePlugin(m.plugins[i], n.plugins[i]))
    && m.mcp.enabled == n.mcp.enabled && OrEmpty(m.mcp.serverName) == OrEmpty(n.mcp.serverName)
    && OrEmpty(m.mcp.serverVersion) == OrEmpty(n.mcp.serverVersion)
  }

  // ---------- Cutting at separators ----------

  /** The first separator of a text determines the part before it. */
  lemma CutFirst<T>(x: seq<T>, s: seq<T>, y: seq<T>, t: seq<T>, sep: T)
    requires sep !in x && sep !in y && x + [sep] + s == y + [sep] + t
    ensures x == y && s == t
  {
    var u, v := x + [sep] + s, y + [sep] + t;
    assert u[|x|] == sep && v[|y|] == sep;
    assert forall i | 0 <= i < |x| :: u[i] == x[i];
    assert forall i | 0 <= i < |y| :: v[i] == y[i];
    assert |x| == |y|;
    CutEqual(x + [sep], s, y + [sep], t);
    CutEqual(x, [sep], y, [sep]);
  }

  /** The last separator determines the part after it. */
  lemma CutLast<T>(x: seq<T>, s: seq<T>, y: seq<T>, t: seq<T>, sep: T)
    requires sep !in s && sep !in t && x + [sep] + s == y + [sep] + t
    ensures x == y && s == t
  {
    var u, v := x + [sep] + s, y + [sep] + t;
    assert u[|x|] == sep && v[|y|] == sep;
    assert forall i | 0 <= i < |s| :: u[|x| + 1 + i] == s[i];
    assert forall i | 0 <= i < |t| :: v[|y| + 1 + i] == t[i];
    assert |x| == |y|;
    CutEqual(x + [sep], s, y + [sep], t);
    CutEqual(x, [sep], y, [sep]);
  }

  lemma {:induction false} LinesReadBack(a: seq<string>, b: seq<string>)
    requires OneLiners(a) && OneLiners(b) && Flat(Terminated, a) == Flat(Terminated, b)
    ensures a == b
  {
    if a != [] && b != [] {
      CutFirst(a[0], Flat(Terminated, a[1..]), b[0], Flat(Terminated, b[1..]), '\n');
      LinesReadBack(a[1..], b[1..]);
      assert a == [a[0]] + a[1..] && b == [b[0]] + b[1..];
    }
  }

  // ---------- Each line determines its fields ----------

  lemma SpecLineInjective(s: SourceSpec, t: SourceSpec)
    requires CleanSpec(s) && CleanSpec(t) && SpecLine(s) == SpecLine(t)
    ensures s == t
  {
    CutLast("source_spec:" + s.file, s.sha256, "source_spec:" + t.file, t.sha256, '=');
    CutEqual("source_spec:", s.file, "source_spec:", t.file);
  }

  lemma ChecksumLineInjective(c: Checksum, d: Checksum)
    requires CleanChecksum(c) && CleanChecksum(d) && ChecksumLine(c) == ChecksumLine(d)
    ensures c == d
  {
    CutLast(c.key, c.value, d.key, d.value, '=');
  }

  lemma ShowInjective(a: bool, b: bool)
    requires Show(a) == Show(b)
    ensures a == b
  {
    assert Show(true)[0] == 't' && Show(false)[0] == 'f';
  }

  lemma EnforcedLineInjective(a: bool, b: bool)
    requires EnforcedLine(a) == EnforcedLine(b)
    ensures a == b
  {
    CutEqual("capabilities_enforced=", Show(a), "capabilities_enforced=", Show(b));
    ShowInjective(a, b);
  }

  lemma SortedNamesClean(names: seq<string>)
    ensures forall h | h in SortedNames(names) :: h in names
  {
    SortPermutes(StrLe, names);
    forall h | h in SortedNames(names) ensures h in names {
      assert h in multiset(SortedNames(names));
    }
  }

  lemma JoinNonempty(a: seq<string>)
    requires a != [] && forall h | h in a :: h != []
    ensures Join(a, ',') != []
  {
    assert a[0] in a;
  }

  lemma NamesJoinInjective(a: seq<string>, b: seq<string>)
    requires (forall h | h in a :: h != [] && ',' !in h) && (forall h | h in b :: h != [] && ',' !in h)
    requires Join(a, ',') == Join(b, ',')
    ensures a == b
  {
    if a != [] { JoinNonempty(a); }
    if b != [] { JoinNonempty(b); }
    if a != [] && b != [] {
      SplitJoin(a, ',');
      SplitJoin(b, ',');
    }
  }

  lemma HostFunctionsInjective(a: seq<string>, b: seq<string>)
    requires (forall h | h in a :: h != [] && ',' !in h) && (forall h | h in b :: h != [] && ',' !in h)
    requires Join(SortedNames(a), ',') == Join(SortedNames(b), ',')
    ensures multiset(a) == multiset(b)
  {
    SortedNamesClean(a);
    SortedNamesClean(b);
    NamesJoinInjective(SortedNames(a), SortedNames(b));
    SortPermutes(StrLe, a);
    SortPermutes(StrLe, b);
  }

  lemma {:induction false} JoinFree(parts: seq<string>, sep: char, c: char)
    requires c != sep && forall p | p in parts :: c !in p
    ensures c !in Join(parts, sep)
  {
    if |parts| > 1 { JoinFree(parts[1..], sep, c); }
  }

  lemma HostFunctionsPlain(names: seq<string>)
    requires forall h | h in names :: Plain(h)
    ensures Plain(Join(SortedNames(names), ','))
  {
    SortedNamesClean(names);
    JoinFree(SortedNames(names), ',', '\n');
    JoinFree(SortedNames(names), ',', '\t');
  }

  lemma PluginFieldsClean(p: Plugin)
    requires CleanPlugin(p)
    ensures forall f | f in PluginFields(p) :: Plain(f)
  {
    HostFunctionsPlain(p.hostFunctions);
  }

  lemma PluginLineInjective(p: Plugin, q: Plugin)
    requires CleanPlugin(p) && CleanPlugin(q) && PluginLine(p) == PluginLine(q)
    ensures SamePlugin(p, q)
  {
    PluginFieldsClean(p);
    PluginFieldsClean(q);
    SplitJoin(PluginFields(p), '\t');
    SplitJoin(PluginFields(q), '\t');
    PluginFieldsInjective(p, q);
  }

  lemma PluginFieldsInjective(p: Plugin, q: Plugin)
    requires CleanPlugin(p) && CleanPlugin(q) && PluginFields(p) == PluginFields(q)
    ensures SamePlugin(p, q)
  {
    var f, g := PluginFields(p), PluginFields(q);
    assert f[0] == g[0] && f[1] == g[1] && f[2] == g[2] && f[3] == g[3] && f[4] == g[4];
    CutEqual("plugin:", p.name, "plugin:", q.name);
    CutEqual("type=", p.pluginType, "type=", q.pluginType);
    CutEqual("version=", p.version, "version=", q.version);
    CutEqual("body_access=", Show(p.bodyAccess), "body_access=", Show(q.bodyAccess));
    CutEqual("host_functions=", Join(SortedNames(p.hostFunctions), ','), "host_functions=", Join(SortedNames(q.hostFunctions), ','));
    ShowInjective(p.bodyAccess, q.bodyAccess);
    HostFunctionsInjective(p.hostFunctions, q.hostFunctions);
  }

  lemma McpLineInjective(m: McpConfig, n: McpConfig)
    requires CleanMcp(m) && CleanMcp(n) && McpLine(m) == McpLine(n)
    ensures m.enabled == n.enabled && OrEmpty(m.serverName) == OrEmpty(n.serverName)
    ensures OrEmpty(m.serverVersion) == OrEmpty(n.serverVersion)
  {
    var f, g := McpFields(m), McpFields(n);
    SplitJoin(f, '\t');
    SplitJoin(g, '\t');
    assert f[0] == g[0] && f[1] == g[1] && f[2] == g[2];
    CutEqual("mcp:enabled=", Show(m.enabled), "mcp:enabled=", Show(n.enabled));
    CutEqual("server_name=", OrEmpty(m.serverName), "server_name=", OrEmpty(n.serverName));
    CutEqual("server_version=", OrEmpty(m.serverVersion), "server_version=", OrEmpty(n.serverVersion));
    ShowInjective(m.enabled, n.enabled);
  }

  /** The condition is needed: names and versions are free text, and a tab followed by the next
      field's label can move from one to the other. */
  lemma McpLinesCollide(enabled: bool, a: string, b: string, c: string)
    ensures var tag := ['\t'] + "server_version=";
            McpLine(McpConfig(enabled, Some(a + tag + b), Some(c))) == McpLine(McpConfig(enabled, Some(a), Some(b + tag + c)))
  {
    var name, version, tab := "server_name=", "server_version=", ['\t'];
    var tag := tab + version;
    var first := "mcp:enabled=" + Show(enabled);
    JoinThree(first, name + (a + tag + b), version + c, '\t');
    JoinThree(first, name + a, version + (b + tag + c), '\t');
    Regroup(first + tab, name, a, tab, version, b, c);
  }

  lemma JoinThree(x: string, y: string, z: string, sep: char)
    ensures Join([x, y, z], sep) == x + [sep] + (y + [sep] + z)
  {
    var parts := [x, y, z];
    var rest := parts[1..];
    assert rest == [y, z] && rest[1..] == [z];
    assert Join(rest, sep) == y + [sep] + Join(rest[1..], sep);
    assert Join(parts, sep) == x + [sep] + Join(rest, sep);
  }

  lemma Regroup(x: string, name: string, a: string, tab: string, version: string, b: string, c: string)
    ensures x + (name + (a + (tab + version) + b) + tab + (version + c))
         == x + (name + a + tab + (version + (b + (tab + version) + c)))
  {
    assert name + (a + (tab + version) + b) + tab + (version + c)
        == name + a + tab + version + b + tab + version + c;
    assert name + a + tab + (version + (b + (tab + version) + c))
        == name + a + tab + version + b + tab + version + c;
  }

  // ---------- Lines of different kinds differ ----------

  datatype Kind = SpecKind | ChecksumKind | EnforcedKind | PluginKind | McpKind

  /** Recognisable from the first and seventh characters. */
  function KindOf(line: string): Kind {
    if line == [] then McpKind
    else if line[0] == 's' then SpecKind
    else if line[0] == 'r' then ChecksumKind
    else if line[0] == 'c' then EnforcedKind
    else if line[0] == 'm' then McpKind
    else if |line| > 6 && line[6] == ':' then PluginKind
    else ChecksumKind
  }

  lemma ChecksumKindOf(c: Checksum)
    requires CleanChecksum(c)
    ensures KindOf(ChecksumLine(c)) == ChecksumKind
  {
    assert ChecksumLine(c)[0] == c.key[0];
    if c.key != "routes.json" {
      assert c.key[0] == "plugins/"[0] && c.key[6] == "plugins/"[6] && ChecksumLine(c)[6] == c.key[6];
    }
  }

  lemma PluginKindOf(p: Plugin)
    ensures KindOf(PluginLine(p)) == PluginKind
  {
    var first := "plugin:" + p.name;
    assert first <= PluginLine(p);
    assert first[0] == 'p' && first[6] == ':';
  }

  lemma KindsOf(m: Inputs)
    requires Clean(m)
    ensures forall l | l in Map(SpecLine, m.specs) :: KindOf(l) == SpecKind
    ensures forall l | l in Map(ChecksumLine, m.checksums) :: KindOf(l) == ChecksumKind
    ensures forall l | l in Map(PluginLine, m.plugins) :: KindOf(l) == PluginKind
    ensures KindOf(EnforcedLine(m.enforced)) == EnforcedKind && KindOf(McpLine(m.mcp)) == McpKind
  {
    forall i | 0 <= i < |m.specs| ensures KindOf(Map(SpecLine, m.specs)[i]) == SpecKind {
      assert SpecLine(m.specs[i])[0] == 's';
    }
    forall i | 0 <= i < |m.checksums| ensures KindOf(Map(ChecksumLine, m.checksums)[i]) == ChecksumKind {
      ChecksumKindOf(m.checksums[i]);
    }
    forall i | 0 <= i < |m.plugins| ensures KindOf(Map(PluginLine, m.plugins)[i]) == PluginKind {
      PluginKindOf(m.plugins[i]);
    }
    assert EnforcedLine(m.enforced)[0] == 'c';
  }

  function Pick(ls: seq<string>, kind: Kind, k: Kind): seq<string> { if kind == k then ls else [] }

  function Select(ls: seq<string>, k: Kind): seq<string> { Filter((l: string) => KindOf(l) == k, ls) }

  lemma SelectConcat(a: seq<string>, b: seq<string>, k: Kind)
    ensures Select(a + b, k) == Select(a, k) + Select(b, k)
  {
    FilterConcat((l: string) => KindOf(l) == k, a, b);
  }

  lemma SelectFive(a: seq<string>, b: seq<string>, c: seq<string>, d: seq<string>, e: seq<string>, k: Kind)
    ensures Select(a + b + c + d + e, k) == Select(a, k) + Select(b, k) + Select(c, k) + Select(d, k) + Select(e, k)
  {
    SelectConcat(a + b + c + d, e, k);
    SelectConcat(a + b + c, d, k);
    SelectConcat(a + b, c, k);
    SelectConcat(a, b, k);
  }

  lemma OnlyOne(x: seq<string>)
    ensures x + [] + [] + [] + [] == x && [] + x + [] + [] + [] == x && [] + [] + x + [] + [] == x
    ensures [] + [] + [] + x + [] == x && [] + [] + [] + [] + x == x
  {
  }

  lemma SelectPicked(a: seq<string>, b: seq<string>, c: seq<string>, d: seq<string>, e: seq<string>, k: Kind)
    requires (forall l | l in a :: KindOf(l) == SpecKind) && (forall l | l in b :: KindOf(l) == ChecksumKind)
    requires (forall l | l in c :: KindOf(l) == EnforcedKind) && (forall l | l in d :: KindOf(l) == PluginKind)
    requires forall l | l in e :: KindOf(l) == McpKind
    ensures Select(a + b + c + d + e, k)
         == Pick(a, SpecKind, k) + Pick(b, ChecksumKind, k) + Pick(c, EnforcedKind, k) + Pick(d, PluginKind, k) + Pick(e, McpKind, k)
  {
    SelectFive(a, b, c, d, e, k);
    SelectAllOrNone(a, SpecKind, k);
    SelectAllOrNone(b, ChecksumKind, k);
    SelectAllOrNone(c, EnforcedKind, k);
    SelectAllOrNone(d, PluginKind, k);
    SelectAllOrNone(e, McpKind, k);
  }

  /** Selecting the lines of one kind gives back that part of the manifest. */
  lemma SelectKind(m: Inputs, k: Kind)
    requires Clean(m)
    ensures Select(Lines(m), k)
         == Pick(Map(SpecLine, m.specs), SpecKind, k) + Pick(Map(ChecksumLine, m.checksums), ChecksumKind, k)
            + Pick([EnforcedLine(m.enforced)], EnforcedKind, k) + Pick(Map(PluginLine, m.plugins), PluginKind, k)
            + Pick([McpLine(m.mcp)], McpKind, k)
  {
    KindsOf(m);
    SelectPicked(Map(SpecLine, m.specs), Map(ChecksumLine, m.checksums), [EnforcedLine(m.enforced)],
      Map(PluginLine, m.plugins), [McpLine(m.mcp)], k);
  }

  lemma SelectInputs(m: Inputs)
    requires Clean(m)
    ensures Select(Lines(m), SpecKind) == Map(SpecLine, m.specs)
    ensures Select(Lines(m), ChecksumKind) == Map(ChecksumLine, m.checksums)
  {
    assert Select(Lines(m), SpecKind) == Map(SpecLine, m.specs) by {
      SelectKind(m, SpecKind); OnlyOne(Map(SpecLine, m.specs));
    }
    assert Select(Lines(m), ChecksumKind) == Map(ChecksumLine, m.checksums) by {
      SelectKind(m, ChecksumKind); OnlyOne(Map(ChecksumLine, m.checksums));
    }
  }

  lemma SelectCapabilities(m: Inputs)
    requires Clean(m)
    ensures Select(Lines(m), EnforcedKind) == [EnforcedLine(m.enforced)]
    ensures Select(Lines(m), PluginKind) == Map(PluginLine, m.plugins)
  {
    assert Select(Lines(m), EnforcedKind) == [EnforcedLine(m.enforced)] by {
      SelectKind(m, EnforcedKind); OnlyOne([EnforcedLine(m.enforced)]);
    }
    assert Select(Lines(m), PluginKind) == Map(PluginLine, m.plugins) by {
      SelectKind(m, PluginKind); OnlyOne(Map(PluginLine, m.plugins));
    }
  }

  lemma SelectMcp(m: Inputs)
    requires Clean(m)
    ensures Select(Lines(m), McpKind) == [McpLine(m.mcp)]
  {
    assert Select(Lines(m), McpKind) == [McpLine(m.mcp)] by {
      SelectKind(m, McpKind); OnlyOne([McpLine(m.mcp)]);
    }
  }

  lemma SelectAllOrNone(ls: seq<string>, kind: Kind, k: Kind)
    requires forall l | l in ls :: KindOf(l) == kind
    ensures Select(ls, k) == Pick(ls, kind, k)
  {
    if kind == k {
      FilterAll((l: string) => KindOf(l) == k, ls);
    } else {
      FilterNone((l: string) => KindOf(l) == k, ls);
    }
  }

  // ---------- The text determines the inputs ----------

  lemma PluginLineClean(p: Plugin)
    requires CleanPlugin(p)
    ensures '\n' !in PluginLine(p)
  {
    PluginFieldsClean(p);
    JoinFree(PluginFields(p), '\t', '\n');
  }

  lemma McpLineClean(m: McpConfig)
    requires CleanMcp(m)
    ensures '\n' !in McpLine(m)
  {
    JoinFree(McpFields(m), '\t', '\n');
  }

  predicate OneLiners(ls: seq<string>) { forall l | l in ls :: '\n' !in l }

  lemma SpecLinesClean(specs: seq<SourceSpec>)
    requires forall s | s in specs :: CleanSpec(s)
    ensures OneLiners(Map(SpecLine, specs))
  {
    assert forall s | s in specs :: '\n' !in SpecLine(s);
  }

  lemma ChecksumLinesClean(checksums: seq<Checksum>)
    requires forall c | c in checksums :: CleanChecksum(c)
    ensures OneLiners(Map(ChecksumLine, checksums))
  {
    assert forall c | c in checksums :: '\n' !in ChecksumLine(c);
  }

  lemma PluginLinesClean(plugins: seq<Plugin>)
    requires forall p | p in plugins :: CleanPlugin(p)
    ensures OneLiners(Map(PluginLine, plugins))
  {
    forall p | p in plugins ensures '\n' !in PluginLine(p) { PluginLineClean(p); }
  }

  lemma OneLinersConcat(a: seq<string>, b: seq<string>)
    requires OneLiners(a) && OneLiners(b)
    ensures OneLiners(a + b)
  {
  }

  lemma LinesAreClean(m: Inputs)
    requires Clean(m)
    ensures OneLiners(Lines(m))
  {
    SpecLinesClean(m.specs);
    ChecksumLinesClean(m.checksums);
    PluginLinesClean(m.plugins);
    McpLineClean(m.mcp);
    var a, b, c, d, e := Map(SpecLine, m.specs), Map(ChecksumLine, m.checksums), [EnforcedLine(m.enforced)],
                         Map(PluginLine, m.plugins), [McpLine(m.mcp)];
    OneLinersConcat(a, b);
    OneLinersConcat(a + b, c);
    OneLinersConcat(a + b + c, d);
    OneLinersConcat(a + b + c + d, e);
  }

  /** The hash text is injective: equal texts come from manifests with equal hashed inputs. */
  lemma HashTextInjective(m: Inputs, n: Inputs)
    requires Clean(m) && Clean(n) && HashText(m) == HashText(n)
    ensures Same(m, n)
  {
    LinesAreClean(m);
    LinesAreClean(n);
    LinesReadBack(Lines(m), Lines(n));
    SameLines(m, n);
  }

  lemma SameLines(m: Inputs, n: Inputs)
    requires Clean(m) && Clean(n) && Lines(m) == Lines(n)
    ensures Same(m, n)
  {
    SelectInputs(m);
    SelectCapabilities(m);
    SelectMcp(m);
    SelectInputs(n);
    SelectCapabilities(n);
    SelectMcp(n);
    EnforcedLineInjective(m.enforced, n.enforced);
    McpLineInjective(m.mcp, n.mcp);
    SameSpecs(m.specs, n.specs);
    SameChecksums(m.checksums, n.checksums);
    SamePlugins(m.plugins, n.plugins);
  }

  lemma {:induction false} SameSpecs(a: seq<SourceSpec>, b: seq<SourceSpec>)
    requires (forall s | s in a :: CleanSpec(s)) && (forall s | s in b :: CleanSpec(s))
    requires Map(SpecLine, a) == Map(SpecLine, b)
    ensures a == b
  {
    forall i | 0 <= i < |a| ensures a[i] == b[i] {
      SpecLineInjective(a[i], b[i]);
    }
  }

  lemma {:induction false} SameChecksums(a: seq<Checksum>, b: seq<Checksum>)
    requires (forall c | c in a :: CleanChecksum(c)) && (forall c | c in b :: CleanChecksum(c))
    requires Map(ChecksumLine, a) == Map(ChecksumLine, b)
    ensures a == b
  {
    forall i | 0 <= i < |a| ensures a[i] == b[i] {
      ChecksumLineInjective(a[i], b[i]);
    }
  }

  lemma {:induction false} SamePlugins(a: seq<Plugin>, b: seq<Plugin>)
    requires (forall p | p in a :: CleanPlugin(p)) && (forall p | p in b :: CleanPlugin(p))
    requires Map(PluginLine, a) == Map(PluginLine, b)
    ensures |a| == |b| && forall i | 0 <= i < |a| :: SamePlugin(a[i], b[i])
  {
    forall i | 0 <= i < |a| ensures SamePlugin(a[i], b[i]) {
      assert a[i] in a && b[i] in b;
      PluginLineInjective(a[i], b[i]);
    }
  }

  // ---------- And forgets only what it should ----------

  lemma StringOrder()
    ensures TotalPreorder(StrLe)
    ensures forall a, b | StrLe(a, b) && StrLe(b, a) :: a == b
  {
    forall a, b, c
      ensures StrLe(a, b) || StrLe(b, a)
      ensures StrLe(a, b) && StrLe(b, a) ==> a == b
      ensures StrLe(a, b) && StrLe(b, c) ==> StrLe(a, c)
    {
      StrOrder(a, b, c);
    }
  }

  lemma SamePluginLine(p: Plugin, q: Plugin)
    requires SamePlugin(p, q)
    ensures PluginLine(p) == PluginLine(q)
  {
    StringOrder();
    SortCanonical(StrLe, p.hostFunctions, q.hostFunctions);
  }

  /** Two clean manifests give the same text exactly when their hashed inputs agree. */
  lemma HashTextIff(m: Inputs, n: Inputs)
    requires Clean(m) && Clean(n)
    ensures HashText(m) == HashText(n) <==> Same(m, n)
  {
    if Same(m, n) {
      forall i | 0 <= i < |m.plugins| ensures PluginLine(m.plugins[i]) == PluginLine(n.plugins[i]) {
        SamePluginLine(m.plugins[i], n.plugins[i]);
      }
      assert Map(PluginLine, m.plugins) == Map(PluginLine, n.plugins);
      assert McpLine(m.mcp) == McpLine(n.mcp);
    }
    if HashText(m) == HashText(n) {
      HashTextInjective(m, n);
    }
  }
}
