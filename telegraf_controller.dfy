/** The collector-configuration store and process handle of TelegrafController: an allow-list
    registry of settable sections and parameters, the main TOML file with one overlay file per
    registered section, the JSON sidecar for the service's own webOS.* sections, the procstat
    plugin file, and the pid of the spawned collector.

    The file system is a map from path to text; shell commands, kill(), posix_spawn() and
    waitpid() appear as the results they return, given as parameters. */
module TelegrafController {
  import opened CppString
  import opened Unordered
  import opened TomlParser
  import opened JsonValue

  /** availableConfiguration: section name -> the parameter names a client may set in it. */
  type Registry = map<string, set<string>>

  /** The text files on disk, by path. */
  type Files = map<string, string>

  const MainConfig: string := "/var/lib/com.webos.service.sdkagent/telegraf/telegraf.conf"
  const ConfigDir: string := "/var/lib/com.webos.service.sdkagent/telegraf/telegraf.d/"
  /** The procstat plugin file; note that it lies in a telegraf.d/ directory beside, not inside,
      the overlay directory ConfigDir. */
  const ProcstatConfig: string := "/var/lib/com.webos.service.sdkagent/telegraf.d/procstat.conf"
  const WebOSPrefix: string := "webOS."
  const WebProcessSize: string := "webOS.webProcessSize"
  const ProcessMonitoring: string := "webOS.processMonitoring"

  /** The registry before any manifest is loaded. */
  const DefaultRegistry: Registry := map[
    "agent" := {"interval", "flush_interval"},
    "outputs.influxdb" := {"database", "urls"},
    WebProcessSize := {"enabled"},
    ProcessMonitoring := {"process_name", "enabled"}]

  function FileContent(files: Files, path: string): Option<string>
  {
    if path in files then Some(files[path]) else None
  }

  /** Replacing (Some) or removing (None) one file. */
  function WithFile(files: Files, path: string, content: Option<string>): Files
  {
    match content
    case Some(t) => files[path := t]
    case None => files - {path}
  }

  /** readTomlFile does not throw on the file at `path`, if there is one. */
  predicate Readable(files: Files, path: string)
  {
    path in files ==> TomlReadable(files[path])
  }

  // ---------------------------------------------------------------------------------------
  // checkInputConfig

  /** A request the controller accepts: at least one section, every section registered, and
      every parameter allowed in its section, all compared exactly (case-sensitively). */
  predicate ValidInput(registry: Registry, input: TomlObject)
  {
    input != map[] && forall s :: s in input ==> s in registry && input[s].Keys <= registry[s]
  }

  /** checkInputConfig(inputConfig) against `registry`. */
  method CheckInputConfig(registry: Registry, input: TomlObject) returns (ok: bool)
    ensures ok <==> ValidInput(registry, input)
  {
    if input == map[] {
      return false;
    }
    var sections := input.Keys;
    while sections != {}
      invariant sections <= input.Keys
      invariant forall s :: s in input && s !in sections ==> s in registry && input[s].Keys <= registry[s]
      decreases |sections|
    {
      var s :| s in sections;
      if s !in registry {
        return false;
      }
      var keys := input[s].Keys;
      while keys != {}
        invariant keys <= input[s].Keys
        invariant forall k :: k in input[s] && k !in keys ==> k in registry[s]
        decreases |keys|
      {
        var k :| k in keys;
        if k !in registry[s] {
          return false;
        }
        keys := keys - {k};
      }
      sections := sections - {s};
    }
    return true;
  }

  /** With the default registry: a registered parameter is accepted, while a section or a
      parameter that differs only in letter case is refused, and so is an empty request. */
  lemma {:induction false} DefaultRegistryIsCaseSensitive()
    ensures ValidInput(DefaultRegistry, map["agent" := map["interval" := "\"10s\""]])
    ensures !ValidInput(DefaultRegistry, map["Agent" := map["interval" := "\"10s\""]])
    ensures !ValidInput(DefaultRegistry, map["agent" := map["Interval" := "\"10s\""]])
    ensures !ValidInput(DefaultRegistry, map[])
  {
    var good := map["agent" := map["interval" := "\"10s\""]];
    assert good["agent"].Keys == {"interval"};
    assert "interval" in DefaultRegistry["agent"];
    var bad := map["agent" := map["Interval" := "\"10s\""]];
    assert "Interval" in bad["agent"].Keys;
    assert "Interval" !in DefaultRegistry["agent"];
  }

  // ---------------------------------------------------------------------------------------
  // The registry manifest (initAvailableConfigurations)

  /** What readTextFile and json_tokener_parse make of the manifest file. */
  datatype Manifest =
    | NoManifest
      /** The file is missing or empty. */
    | Unparsable
      /** The text is no JSON. */
    | Parsed(available: Option<map<string, seq<string>>>)
      /** The document's "availableConfiguration" member, if any: section -> its array's
          elements, each as the JSON text json_object_to_json_string renders for it. */

  /** The registry after loading `manifest`: kept when there is nothing to parse, otherwise
      cleared and filled from the manifest's member. */
  function LoadedRegistry(current: Registry, manifest: Manifest): (r: Registry)
  {
    match manifest
    case NoManifest => current
    case Unparsable => current
    case Parsed(None) => map[]
    case Parsed(Some(avail)) => map s | s in avail :: set t | t in avail[s]
  }

  /** The registry stores each parameter as its element's JSON text, quotes included: when
      every element of the manifest is a JSON string, whose text starts with a quote, a request
      naming a parameter without quotes is refused. */
  lemma {:induction false} ManifestKeysKeepQuotes(current: Registry, avail: map<string, seq<string>>, input: TomlObject, s: string, k: string)
    requires forall sec :: sec in avail ==> forall i :: 0 <= i < |avail[sec]| ==> StartsWith(avail[sec][i], "\"")
    requires s in input && k in input[s] && !StartsWith(k, "\"")
    ensures !ValidInput(LoadedRegistry(current, Parsed(Some(avail))), input)
  {
  }

  /** Loading a manifest: with nothing to parse the registry is kept; a document without
      "availableConfiguration" leaves an empty registry, which refuses every request; otherwise
      the registry has exactly the member's sections, each allowing exactly its elements. */
  lemma {:induction false} LoadedRegistryCases(current: Registry, manifest: Manifest, input: TomlObject)
    ensures manifest.NoManifest? || manifest.Unparsable? ==> LoadedRegistry(current, manifest) == current
    ensures manifest == Parsed(None) ==> !ValidInput(LoadedRegistry(current, manifest), input)
    ensures manifest.Parsed? && manifest.available.Some? ==>
      var avail, r := manifest.available.value, LoadedRegistry(current, manifest);
      && r.Keys == avail.Keys
      && forall s, t :: s in avail ==> (t in r[s] <==> t in avail[s])
  {
    if manifest == Parsed(None) && input != map[] {
      var s :| s in input;
      assert s !in LoadedRegistry(current, manifest);
    }
  }

  // ---------------------------------------------------------------------------------------
  // getSectionConfigPath

  /** getSectionConfigPath(name): the overlay file of a registered section, "" otherwise. */
  function SectionConfigPath(registry: Registry, name: string): (r: string)
    ensures r != "" <==> name in registry
  {
    if name in registry then ConfigDir + name + ".conf" else ""
  }

  /** Distinct sections have distinct overlay files. */
  lemma {:induction false} SectionConfigPathInjective(registry: Registry)
    ensures forall a, b :: a in registry && b in registry && a != b ==> SectionConfigPath(registry, a) != SectionConfigPath(registry, b)
  {
    forall a, b | a in registry && b in registry && SectionConfigPath(registry, a) == SectionConfigPath(registry, b)
      ensures a == b
    {
      var n := |ConfigDir|;
      var pa, pb := ConfigDir + a + ".conf", ConfigDir + b + ".conf";
      assert |a| == |b|;
      assert pa[n..n + |a|] == a;
      assert pb[n..n + |b|] == b;
    }
  }

  /** No overlay file is the main file or the procstat file. */
  lemma {:induction false} OverlayIsNoOtherFile(registry: Registry)
    ensures forall s :: s in registry ==> SectionConfigPath(registry, s) != MainConfig && SectionConfigPath(registry, s) != ProcstatConfig
  {
    forall s | s in registry
      ensures SectionConfigPath(registry, s) != MainConfig && SectionConfigPath(registry, s) != ProcstatConfig
    {
      var p := ConfigDir + s + ".conf";
      assert p[54] == ConfigDir[54] == 'd';
      assert MainConfig[54] == 'c';
      assert p[44] == ConfigDir[44] == '/';
      assert ProcstatConfig[44] == '.';
    }
  }

  // ---------------------------------------------------------------------------------------
  // getTelegrafConfig

  /** A registered section whose overlay file replaces its main-file contents; webOS.* sections
      come from the sidecar instead. */
  predicate Overlaid(registry: Registry, s: string)
  {
    s in registry && !StartsWith(s, WebOSPrefix)
  }

  function OverlaidSections(registry: Registry): set<string>
  {
    set s | s in registry && !StartsWith(s, WebOSPrefix)
  }

  predicate OverlaysReadable(files: Files, registry: Registry)
  {
    forall s :: s in registry && !StartsWith(s, WebOSPrefix) ==> Readable(files, SectionConfigPath(registry, s))
  }

  /** The section `s` of its overlay file (empty when the file or the section is missing). */
  function OverlaySection(files: Files, registry: Registry, s: string): Section
    requires Overlaid(registry, s) && Readable(files, SectionConfigPath(registry, s))
  {
    SectionOf(ReadToml(FileContent(files, SectionConfigPath(registry, s))), s)
  }

  /** The configuration getTelegrafConfig assembles: nothing without a main file; otherwise the
      main file's sections, with every overlaid section taken from its overlay file. */
  function TelegrafConfig(files: Files, registry: Registry): TomlObject
    requires Readable(files, MainConfig) && OverlaysReadable(files, registry)
  {
    if MainConfig !in files then map[]
    else
      var main := ReadToml(Some(files[MainConfig]));
      map s | s in main.Keys + OverlaidSections(registry) ::
        if Overlaid(registry, s) then OverlaySection(files, registry, s) else main[s]
  }

  /** Overlaid sections are replaced wholesale: a key of such a section in the main file
      survives only if the overlay has it too, and a missing overlay gives an empty section.
      Every other section of the main file passes through unchanged. */
  lemma {:induction false} TelegrafConfigSections(files: Files, registry: Registry, s: string)
    requires Readable(files, MainConfig) && OverlaysReadable(files, registry)
    requires MainConfig in files
    ensures var cfg, main := TelegrafConfig(files, registry), ReadToml(Some(files[MainConfig]));
      && (Overlaid(registry, s) ==> s in cfg && cfg[s] == OverlaySection(files, registry, s))
      && (Overlaid(registry, s) && SectionConfigPath(registry, s) !in files ==> cfg[s] == map[])
      && (!Overlaid(registry, s) ==> (s in cfg <==> s in main) && (s in main ==> cfg[s] == main[s]))
  {
  }

  // ---------------------------------------------------------------------------------------
  // writeTomlSection's text, for some iteration order

  /** `text` is what writeTomlSection writes for `sec` under the header `name`, the parameters
      in some order. */
  ghost predicate WrittenAs(text: string, name: string, sec: Section)
  {
    exists order :: IsOrdering(order, sec.Keys) && text == SectionText(name, sec, order)
  }

  /** Whatever order the parameters were written in, reading the file back gives the section. */
  lemma {:induction false} WrittenAsReadsBack(text: string, name: string, sec: Section)
    requires WrittenAs(text, name, sec) && GoodName(name) && GoodSection(sec)
    ensures TomlReadable(text) && ReadToml(Some(text)) == map[name := sec]
  {
    var order :| IsOrdering(order, sec.Keys) && text == SectionText(name, sec, order);
    WriteTomlSectionReadsBack(name, sec, order);
  }

  // ---------------------------------------------------------------------------------------
  // splitMainConfig

  /** Apart from the main file, `after` holds the files of `before` and, for each registered
      section of `main` listed in `done` whose overlay did not exist, that overlay written from
      the main file's section; nothing else. */
  ghost predicate OverlaysWritten(before: Files, after: Files, main: TomlObject, registry: Registry, done: set<string>)
  {
    && (forall p :: p in before && p != MainConfig ==> p in after && after[p] == before[p])
    && (forall s :: s in done && s in main && s in registry && SectionConfigPath(registry, s) !in before ==>
          SectionConfigPath(registry, s) in after && WrittenAs(after[SectionConfigPath(registry, s)], s, main[s]))
    && (forall p :: p in after && p !in before && p != MainConfig ==>
          exists s :: s in done && s in main && s in registry && p == SectionConfigPath(registry, s))
  }

  /** splitMainConfig's effect: the missing overlays of the main file's registered sections are
      written, and the main file is whatever disableTomlSection makes of it. */
  ghost predicate SplitDone(before: Files, after: Files, registry: Registry, disable: (Option<string>, set<string>) -> Option<string>)
    requires Readable(before, MainConfig)
  {
    var main := ReadToml(FileContent(before, MainConfig));
    && FileContent(after, MainConfig) == disable(FileContent(before, MainConfig), registry.Keys)
    && OverlaysWritten(before, after, main, registry, main.Keys)
  }

  /** Splitting keeps each overlaid section's effective contents: once its overlay has been
      written from the main file, the assembled configuration has the main file's section,
      whatever disableTomlSection did to the main file. */
  lemma {:induction false} SplitKeepsOverlaidSection(before: Files, after: Files, registry: Registry, disable: (Option<string>, set<string>) -> Option<string>, s: string)
    requires Readable(before, MainConfig) && SplitDone(before, after, registry, disable)
    requires Readable(after, MainConfig) && OverlaysReadable(after, registry) && MainConfig in after
    requires var main := ReadToml(FileContent(before, MainConfig));
      s in main && Overlaid(registry, s) && SectionConfigPath(registry, s) !in before
      && GoodName(s) && GoodSection(main[s])
    ensures var main := ReadToml(FileContent(before, MainConfig));
      s in TelegrafConfig(after, registry) && TelegrafConfig(after, registry)[s] == main[s]
  {
    var main := ReadToml(FileContent(before, MainConfig));
    var path := SectionConfigPath(registry, s);
    OverlayIsNoOtherFile(registry);
    WrittenAsReadsBack(after[path], s, main[s]);
    TelegrafConfigSections(after, registry, s);
  }

  // ---------------------------------------------------------------------------------------
  // loadConfig

  /** The JSON sidecar's document; a missing file reads as the empty object that
      readwebOSConfigJson then creates. */
  function SidecarValue(sidecar: Option<JValue>): JValue
  {
    if sidecar.Some? then sidecar.value else JObject(map[])
  }

  /** `obj[s][k] = v`, creating the section if needed. */
  function SetParam(obj: TomlObject, s: string, k: string, v: string): TomlObject
  {
    obj[s := SectionOf(obj, s)[k := v]]
  }

  /** Setting a parameter twice leaves the second value. */
  lemma {:induction false} SetParamTwice(obj: TomlObject, s: string, k: string, v1: string, v2: string)
    ensures SetParam(SetParam(obj, s, k, v1), s, k, v2) == SetParam(obj, s, k, v2)
  {
    assert SectionOf(obj, s)[k := v1][k := v2] == SectionOf(obj, s)[k := v2];
  }

  function Quote(v: JValue): string
  {
    "\"" + AsString(v) + "\""
  }

  function QuotedNames(names: seq<JValue>): (r: seq<string>)
    ensures |r| == |names|
  {
    if names == [] then [] else QuotedNames(names[..|names| - 1]) + [Quote(names[|names| - 1])]
  }

  /** The process_name value loadConfig stores: each name in quotes, separated by ", ", in
      brackets; "[]" when process_name is no array. */
  function ProcessListText(processName: JValue): string
  {
    if processName.JArray? then "[" + Join(QuotedNames(processName.items), ", ") + "]" else "[]"
  }

  /** loadConfig takes the last two characters off the list without looking at its length: an
      empty process_name array makes std::string::at throw. */
  predicate ProcessListRenderable(json: JValue)
  {
    var pm := Get(json, ProcessMonitoring);
    HasKey(json, ProcessMonitoring) && HasKey(pm, "enabled") && AsBool(Get(pm, "enabled"))
      && Get(pm, "process_name").JArray?
    ==> |Get(pm, "process_name").items| > 0
  }

  /** The webProcessSize flag taken from the sidecar, where the sidecar has it. */
  function WebProcessSizeSet(cfg: TomlObject, json: JValue): TomlObject
  {
    var wps := Get(json, WebProcessSize);
    if HasKey(json, WebProcessSize) && HasKey(wps, "enabled")
    then SetParam(cfg, WebProcessSize, "enabled", if AsBool(Get(wps, "enabled")) then "true" else "false")
    else cfg
  }

  /** The two enabled flags taken from the sidecar, as the strings "true" and "false", and only
      where the sidecar has them; an enabled process monitor also gets its process list. */
  function WithWebOSFlags(cfg: TomlObject, json: JValue): TomlObject
    requires ProcessListRenderable(json)
  {
    var c1 := WebProcessSizeSet(cfg, json);
    var pm := Get(json, ProcessMonitoring);
    if HasKey(json, ProcessMonitoring) && HasKey(pm, "enabled") then
      if AsBool(Get(pm, "enabled"))
      then SetParam(SetParam(c1, ProcessMonitoring, "enabled", "true"), ProcessMonitoring, "process_name", ProcessListText(Get(pm, "process_name")))
      else SetParam(c1, ProcessMonitoring, "enabled", "false")
    else c1
  }

  /** What loadConfig needs: readable configuration files, and a renderable process list when
      there is a main file (the sidecar is only read then). */
  predicate Loadable(files: Files, registry: Registry, sidecar: Option<JValue>)
  {
    Readable(files, MainConfig) && OverlaysReadable(files, registry)
    && (MainConfig in files ==> ProcessListRenderable(SidecarValue(sidecar)))
  }

  /** _allConfig and the sidecar after loadConfig. */
  function LoadResult(files: Files, registry: Registry, sidecar: Option<JValue>): (TomlObject, Option<JValue>)
    requires Loadable(files, registry, sidecar)
  {
    if MainConfig !in files then (map[], sidecar)
    else (WithWebOSFlags(TelegrafConfig(files, registry), SidecarValue(sidecar)), Some(SidecarValue(sidecar)))
  }

  /** The sidecar's flags override the files' only where the sidecar has them: every other
      section, and every other parameter of the two webOS sections, is as the files say. */
  lemma {:induction false} WebOSFlagsOnlyWhereSet(cfg: TomlObject, json: JValue, s: string, k: string)
    requires ProcessListRenderable(json)
    ensures var r := WithWebOSFlags(cfg, json);
      && (s != WebProcessSize && s != ProcessMonitoring ==> (s in r <==> s in cfg) && (s in cfg ==> r[s] == cfg[s]))
      && (!HasKey(Get(json, WebProcessSize), "enabled") ==> (WebProcessSize in r <==> WebProcessSize in cfg))
      && (HasKey(json, WebProcessSize) && HasKey(Get(json, WebProcessSize), "enabled") ==>
            WebProcessSize in r && r[WebProcessSize]["enabled"] == (if AsBool(Get(Get(json, WebProcessSize), "enabled")) then "true" else "false"))
      && (k != "enabled" && k != "process_name" && s in r && k in r[s] ==> s in cfg && k in cfg[s] && r[s][k] == cfg[s][k])
  {
    WebOSFlagsKeepOthers(cfg, json, s, k);
    WebProcessSizeFlag(cfg, json);
  }

  lemma {:induction false} WebOSFlagsKeepOthers(cfg: TomlObject, json: JValue, s: string, k: string)
    requires ProcessListRenderable(json)
    ensures OthersKept(cfg, WithWebOSFlags(cfg, json), s, k)
  {
    var wps, pm := Get(json, WebProcessSize), Get(json, ProcessMonitoring);
    var c1 := WebProcessSizeSet(cfg, json);
    var r := WithWebOSFlags(cfg, json);
    if HasKey(json, WebProcessSize) && HasKey(wps, "enabled") {
      SetParamKept(cfg, WebProcessSize, "enabled", if AsBool(Get(wps, "enabled")) then "true" else "false", s, k);
    }
    if HasKey(json, ProcessMonitoring) && HasKey(pm, "enabled") {
      if AsBool(Get(pm, "enabled")) {
        var c2 := SetParam(c1, ProcessMonitoring, "enabled", "true");
        SetParamKept(c1, ProcessMonitoring, "enabled", "true", s, k);
        SetParamKept(c2, ProcessMonitoring, "process_name", ProcessListText(Get(pm, "process_name")), s, k);
        OthersKeptTrans(c1, c2, r, s, k);
      } else {
        SetParamKept(c1, ProcessMonitoring, "enabled", "false", s, k);
      }
    }
    OthersKeptTrans(cfg, c1, r, s, k);
  }

  /** The webProcessSize section after WithWebOSFlags is as its first step leaves it. */
  lemma {:induction false} WebProcessSizeFlag(cfg: TomlObject, json: JValue)
    requires ProcessListRenderable(json)
    ensures var r := WithWebOSFlags(cfg, json);
      && (!HasKey(Get(json, WebProcessSize), "enabled") ==> (WebProcessSize in r <==> WebProcessSize in cfg))
      && (HasKey(json, WebProcessSize) && HasKey(Get(json, WebProcessSize), "enabled") ==>
            WebProcessSize in r && r[WebProcessSize]["enabled"] == (if AsBool(Get(Get(json, WebProcessSize), "enabled")) then "true" else "false"))
  {
    var pm := Get(json, ProcessMonitoring);
    var c1 := WebProcessSizeSet(cfg, json);
    if HasKey(json, ProcessMonitoring) && HasKey(pm, "enabled") {
      if AsBool(Get(pm, "enabled")) {
        var c2 := SetParam(c1, ProcessMonitoring, "enabled", "true");
        SetParamOtherSection(c1, ProcessMonitoring, "enabled", "true", WebProcessSize);
        SetParamOtherSection(c2, ProcessMonitoring, "process_name", ProcessListText(Get(pm, "process_name")), WebProcessSize);
      } else {
        SetParamOtherSection(c1, ProcessMonitoring, "enabled", "false", WebProcessSize);
      }
    }
  }

  /** Section s, and parameter k of any section, are as in `a` when they are no webOS flag. */
  predicate OthersKept(a: TomlObject, b: TomlObject, s: string, k: string)
  {
    && (s != WebProcessSize && s != ProcessMonitoring ==> (s in b <==> s in a) && (s in a ==> b[s] == a[s]))
    && (k != "enabled" && k != "process_name" && s in b && k in b[s] ==> s in a && k in a[s] && b[s][k] == a[s][k])
  }

  lemma {:induction false} SetParamKept(obj: TomlObject, s0: string, k0: string, v: string, s: string, k: string)
    requires s0 == WebProcessSize || s0 == ProcessMonitoring
    requires k0 == "enabled" || k0 == "process_name"
    ensures OthersKept(obj, SetParam(obj, s0, k0, v), s, k)
  {
  }

  lemma {:induction false} SetParamOtherSection(obj: TomlObject, s0: string, k0: string, v: string, s: string)
    requires s != s0
    ensures s in SetParam(obj, s0, k0, v) <==> s in obj
    ensures s in obj ==> SetParam(obj, s0, k0, v)[s] == obj[s]
  {
  }

  lemma {:induction false} OthersKeptTrans(a: TomlObject, b: TomlObject, c: TomlObject, s: string, k: string)
    requires OthersKept(a, b, s, k) && OthersKept(b, c, s, k)
    ensures OthersKept(a, c, s, k)
  {
  }

  /** The list renders every name quoted, separated by ", ". */
  lemma {:induction false} ProcessListExample()
    ensures ProcessListText(JArray([JString("a"), JString("b")])) == "[\"a\", \"b\"]"
    ensures ProcessListText(JString("a")) == "[]"
  {
    var names := [JString("a"), JString("b")];
    assert names[..1] == [JString("a")] && names[..1][..0] == [];
    assert Quote(JString("a")) == "\"a\"" && Quote(JString("b")) == "\"b\"";
    assert QuotedNames(names[..1]) == ["\"a\""];
    assert QuotedNames(names) == ["\"a\"", "\"b\""];
  }

  // ---------------------------------------------------------------------------------------
  // The rest of the state machine

  /** posix_spawn's outcome: the child's pid it stored, or an error code (pid_ untouched). */
  datatype SpawnResult = Spawned(child: int) | SpawnFailed(errCode: int)

  /** Whether start() spawns a collector that it then records as started: the tracked one is
      not alive and the spawn stored a non-zero pid. */
  predicate StartSucceeds(pid: int, alive: bool, spawn: SpawnResult)
  {
    !(pid > 0 && alive) && spawn.Spawned? && spawn.child != 0
  }

  /** The pids terminationHandler reaps: waitpid's results up to the first non-positive one. */
  function Reaped(results: seq<int>): (r: seq<int>)
    ensures forall i :: 0 <= i < |r| ==> r[i] > 0
  {
    if results == [] || results[0] <= 0 then [] else [results[0]] + Reaped(results[1..])
  }

  /** The subsequence of the names for which `running` holds. */
  function RunningNames(names: seq<JValue>, running: string -> bool): (r: seq<string>)
    ensures |r| <= |names|
  {
    if names == [] then []
    else
      var last := AsString(names[|names| - 1]);
      RunningNames(names[..|names| - 1], running) + (if running(last) then [last] else [])
  }

  /** A name is in the list exactly when some entry of the array has it and it is running. */
  lemma {:induction false} RunningNamesExact(names: seq<JValue>, running: string -> bool, x: string)
    ensures x in RunningNames(names, running) <==> running(x) && exists j :: 0 <= j < |names| && AsString(names[j]) == x
    decreases |names|
  {
    if names != [] {
      var init, last := names[..|names| - 1], AsString(names[|names| - 1]);
      RunningNamesExact(init, running, x);
      assert x in RunningNames(names, running) <==> x in RunningNames(init, running) || (running(last) && x == last);
      assert forall j :: 0 <= j < |init| ==> init[j] == names[j];
      if running(x) && exists j :: 0 <= j < |names| && AsString(names[j]) == x {
        var j :| 0 <= j < |names| && AsString(names[j]) == x;
        if j < |init| {
          assert AsString(init[j]) == x;
        }
      }
    }
  }

  /** The procstat file's text: echo -e writes the three lines and a final newline. */
  function ProcstatText(pattern: string): string
  {
    "[[inputs.procstat]]\npid_tag=true\npattern=\"" + pattern + "\"\n"
  }

  /** The procstat file after updateProcstatConfig: written when process monitoring is enabled
      with an array of names and the running ones, joined by '|', are not empty; removed
      otherwise. */
  function ProcstatFile(json: JValue, running: string -> bool): Option<string>
  {
    var pm := Get(json, ProcessMonitoring);
    var processName := Get(pm, "process_name");
    if HasKey(json, ProcessMonitoring) && HasKey(pm, "enabled") && AsBool(Get(pm, "enabled")) && processName.JArray?
       && Join(RunningNames(processName.items, running), "|") != ""
    then Some(ProcstatText(Join(RunningNames(processName.items, running), "|")))
    else None
  }

  /** The pattern lists the running names, in the sidecar's order: splitting it at '|' gives
      them back, as long as no name contains a '|'. */
  lemma {:induction false} PatternListsRunningNames(names: seq<JValue>, running: string -> bool)
    requires |RunningNames(names, running)| >= 1
    requires forall i :: 0 <= i < |RunningNames(names, running)| ==> '|' !in RunningNames(names, running)[i]
    ensures SplitOn(Join(RunningNames(names, running), "|"), '|') == RunningNames(names, running)
  {
    assert "|" == ['|'];
    SplitOnJoin(RunningNames(names, running), '|');
  }

  /** The sidecar's section for a TOML section: every parameter converted by stringToJValue. */
  function SectionJson(sec: Section, toJson: string -> JValue): JValue
  {
    JObject(map k | k in sec :: toJson(sec[k]))
  }

  function WebOSSections(input: TomlObject): set<string>
  {
    set s | s in input && StartsWith(s, WebOSPrefix)
  }

  /** The sidecar after updateWebOSConfig: each webOS.* section of the input replaces the
      sidecar's section of that name entirely; other sections are kept and non-webOS input
      sections ignored. A document that is no object is left as it is. */
  function ReplaceWebOSSections(json: JValue, input: TomlObject, toJson: string -> JValue): JValue
  {
    if json.JObject? then
      JObject(map s | s in json.fields.Keys + WebOSSections(input) ::
        if s in WebOSSections(input) then SectionJson(input[s], toJson) else json.fields[s])
    else json
  }

  /** The overlay files updateConfig rewrites. */
  function UpdatedPaths(registry: Registry, input: TomlObject): set<string>
  {
    set s | s in input && Overlaid(registry, s) :: SectionConfigPath(registry, s)
  }

  /** updateSectionConfig's new section: the old one with the requested parameters set and all
      others kept, or empty when the request for the section is empty. */
  function SectionUpdate(current: Section, requested: Section): Section
  {
    if requested == map[] then map[] else current + requested
  }

  /** The requested parameters win, every other old parameter survives, and an empty request
      clears the section. */
  lemma {:induction false} SectionUpdateMerges(current: Section, requested: Section, k: string)
    ensures requested == map[] ==> SectionUpdate(current, requested) == map[]
    ensures requested != map[] ==>
      && (k in SectionUpdate(current, requested) <==> k in current || k in requested)
      && (k in requested ==> SectionUpdate(current, requested)[k] == requested[k])
      && (k in current && k !in requested ==> SectionUpdate(current, requested)[k] == current[k])
  {
  }

  /** The loop of updateSectionConfig that sets each requested parameter in the old section. */
  method MergeSection(current: Section, requested: Section) returns (merged: Section)
    ensures merged == current + requested
  {
    merged := current;
    var keys := requested.Keys;
    while keys != {}
      invariant keys <= requested.Keys
      invariant merged.Keys == current.Keys + (requested.Keys - keys)
      invariant forall k :: k in requested && k !in keys ==> merged[k] == requested[k]
      invariant forall k :: k in current && k !in requested.Keys - keys ==> merged[k] == current[k]
      decreases |keys|
    {
      var k :| k in keys;
      merged := merged[k := requested[k]];
      keys := keys - {k};
    }
  }

  /** SectionJson, built by putting the parameters one by one into an empty object. */
  method MakeSectionJson(sec: Section, toJson: string -> JValue) returns (obj: JValue)
    ensures obj == SectionJson(sec, toJson)
  {
    var fields: map<string, JValue> := map[];
    var keys := sec.Keys;
    while keys != {}
      invariant keys <= sec.Keys
      invariant forall k :: k in fields <==> k in sec && k !in keys
      invariant forall k :: k in fields ==> fields[k] == toJson(sec[k])
      decreases |keys|
    {
      var k :| k in keys;
      fields := fields[k := toJson(sec[k])];
      keys := keys - {k};
    }
    obj := JObject(fields);
  }

  /** The process list loadConfig builds for an array of names, or "[]" for anything else. */
  method RenderProcessList(processName: JValue) returns (text: string)
    requires processName.JArray? ==> |processName.items| > 0
    ensures text == ProcessListText(processName)
  {
    text := "[";
    if processName.JArray? {
      var names := processName.items;
      var i := 0;
      while i < |names|
        invariant 0 <= i <= |names|
        invariant text == "[" + Terminated(QuotedNames(names[..i]), ", ")
      {
        assert names[..i + 1][..i] == names[..i];
        TerminatedSnoc(QuotedNames(names[..i]), Quote(names[i]), ", ");
        AppendAssoc("[", Terminated(QuotedNames(names[..i]), ", "), Quote(names[i]) + ", ");
        text := text + (Quote(names[i]) + ", ");
        i := i + 1;
      }
      assert names[..i] == names;
      ghost var joined := Join(QuotedNames(names), ", ");
      TerminatedJoin(QuotedNames(names), ", ");
      AppendAssoc("[", joined, ", ");
      assert text == ("[" + joined) + ", ";
      if text[|text| - 2] == ',' {
        text := text[..|text| - 1];
        text := text[..|text| - 1];
      }
      assert text == "[" + joined;
    }
    text := text + "]";
  }


  // ---------------------------------------------------------------------------------------
  // The loops of the controller's operations, over values

  /** Whether the overlay of a section not yet visited exists: it can only be one that existed
      before, since every overlay written so far belongs to another section. */
  lemma {:induction false} OverlayFreshness(before: Files, fs: Files, main: TomlObject, registry: Registry, done: set<string>, s: string)
    requires s in registry && s !in done
    requires OverlaysWritten(before, fs, main, registry, done)
    ensures SectionConfigPath(registry, s) in fs <==> SectionConfigPath(registry, s) in before
  {
    SectionConfigPathInjective(registry);
    OverlayIsNoOtherFile(registry);
    var path := SectionConfigPath(registry, s);
    if path in fs && path !in before {
      assert false;
    }
  }

  /** Visiting a section that gets no new overlay keeps what has been written. */
  lemma {:induction false} OverlaysWrittenSkip(before: Files, fs: Files, main: TomlObject, registry: Registry, done: set<string>, s: string)
    requires s in registry && s in main ==> SectionConfigPath(registry, s) in before
    requires OverlaysWritten(before, fs, main, registry, done)
    ensures OverlaysWritten(before, fs, main, registry, done + {s})
  {
    forall p | p in fs && p !in before && p != MainConfig
      ensures exists x :: x in done + {s} && x in main && x in registry && p == SectionConfigPath(registry, x)
    {
      var x :| x in done && x in main && x in registry && p == SectionConfigPath(registry, x);
      assert x in done + {s};
    }
  }

  /** Writing the overlay of a section that had none extends what has been written. */
  lemma {:induction false} OverlaysWrittenAdd(before: Files, fs: Files, main: TomlObject, registry: Registry, done: set<string>, s: string, text: string)
    requires s in registry && s in main && s !in done
    requires SectionConfigPath(registry, s) !in fs && WrittenAs(text, s, main[s])
    requires OverlaysWritten(before, fs, main, registry, done)
    ensures OverlaysWritten(before, fs[SectionConfigPath(registry, s) := text], main, registry, done + {s})
  {
    AddKeepsBefore(before, fs, main, registry, done, s, text);
    AddWritesDone(before, fs, main, registry, done, s, text);
    AddWritesNoOther(before, fs, main, registry, done, s, text);
  }

  lemma {:induction false} AddKeepsBefore(before: Files, fs: Files, main: TomlObject, registry: Registry, done: set<string>, s: string, text: string)
    requires SectionConfigPath(registry, s) !in fs
    requires OverlaysWritten(before, fs, main, registry, done)
    ensures forall p :: p in before && p != MainConfig ==>
      p in fs[SectionConfigPath(registry, s) := text] && fs[SectionConfigPath(registry, s) := text][p] == before[p]
  {
  }

  lemma {:induction false} AddWritesDone(before: Files, fs: Files, main: TomlObject, registry: Registry, done: set<string>, s: string, text: string)
    requires s in registry && s in main
    requires SectionConfigPath(registry, s) !in fs && WrittenAs(text, s, main[s])
    requires OverlaysWritten(before, fs, main, registry, done)
    ensures var fs' := fs[SectionConfigPath(registry, s) := text];
      forall x :: x in done + {s} && x in main && x in registry && SectionConfigPath(registry, x) !in before ==>
        SectionConfigPath(registry, x) in fs' && WrittenAs(fs'[SectionConfigPath(registry, x)], x, main[x])
  {
    var path := SectionConfigPath(registry, s);
    var fs' := fs[path := text];
    SectionConfigPathInjective(registry);
    forall x | x in done + {s} && x in main && x in registry && SectionConfigPath(registry, x) !in before
      ensures SectionConfigPath(registry, x) in fs' && WrittenAs(fs'[SectionConfigPath(registry, x)], x, main[x])
    {
      if x != s {
        assert SectionConfigPath(registry, x) != path;
      }
    }
  }

  lemma {:induction false} AddWritesNoOther(before: Files, fs: Files, main: TomlObject, registry: Registry, done: set<string>, s: string, text: string)
    requires s in registry && s in main
    requires OverlaysWritten(before, fs, main, registry, done)
    ensures forall p :: p in fs[SectionConfigPath(registry, s) := text] && p !in before && p != MainConfig ==>
      exists x :: x in done + {s} && x in main && x in registry && p == SectionConfigPath(registry, x)
  {
    var path := SectionConfigPath(registry, s);
    var fs' := fs[path := text];
    forall p | p in fs' && p !in before && p != MainConfig
      ensures exists x :: x in done + {s} && x in main && x in registry && p == SectionConfigPath(registry, x)
    {
      if p == path {
        assert s in done + {s};
      } else {
        var x :| x in done && x in main && x in registry && p == SectionConfigPath(registry, x);
        assert x in done + {s};
      }
    }
  }

  /** One section of splitMainConfig's loop: write the overlay of a registered section that
      has none yet. */
  method WriteOverlayStep(ghost before: Files, fs: Files, mainConfig: TomlObject, registry: Registry, ghost done: set<string>, s: string)
    returns (fs': Files)
    requires s in mainConfig && s !in done
    requires FileContent(fs, MainConfig) == FileContent(before, MainConfig)
    requires OverlaysWritten(before, fs, mainConfig, registry, done)
    ensures FileContent(fs', MainConfig) == FileContent(before, MainConfig)
    ensures OverlaysWritten(before, fs', mainConfig, registry, done + {s})
  {
    fs' := fs;
    if s in registry {
      var configPath := SectionConfigPath(registry, s);
      OverlayFreshness(before, fs, mainConfig, registry, done, s);
      if configPath !in fs {
        OrderingExists(mainConfig[s].Keys);
        var order :| IsOrdering(order, mainConfig[s].Keys);
        var text, _ := WriteTomlSection(s, mainConfig[s], order);
        OverlayIsNoOtherFile(registry);
        OverlaysWrittenAdd(before, fs, mainConfig, registry, done, s, text);
        fs' := fs[configPath := text];
        return;
      }
    }
    OverlaysWrittenSkip(before, fs, mainConfig, registry, done, s);
  }

  /** WriteOverlayStep on the section s taken from the sections still to visit. */
  method WriteMissingOverlay(ghost before: Files, fs: Files, mainConfig: TomlObject, registry: Registry, ghost rest: set<string>, s: string)
    returns (fs': Files)
    requires s in rest && rest <= mainConfig.Keys
    requires FileContent(fs, MainConfig) == FileContent(before, MainConfig)
    requires OverlaysWritten(before, fs, mainConfig, registry, mainConfig.Keys - rest)
    ensures FileContent(fs', MainConfig) == FileContent(before, MainConfig)
    ensures OverlaysWritten(before, fs', mainConfig, registry, mainConfig.Keys - (rest - {s}))
  {
    fs' := WriteOverlayStep(before, fs, mainConfig, registry, mainConfig.Keys - rest, s);
    assert mainConfig.Keys - rest + {s} == mainConfig.Keys - (rest - {s});
  }

  /** splitMainConfig's loop over the main file's sections. */
  method WriteMissingOverlays(files: Files, mainConfig: TomlObject, registry: Registry) returns (fs: Files)
    ensures FileContent(fs, MainConfig) == FileContent(files, MainConfig)
    ensures OverlaysWritten(files, fs, mainConfig, registry, mainConfig.Keys)
  {
    fs := files;
    var rest := mainConfig.Keys;
    while rest != {}
      invariant rest <= mainConfig.Keys
      invariant FileContent(fs, MainConfig) == FileContent(files, MainConfig)
      invariant OverlaysWritten(files, fs, mainConfig, registry, mainConfig.Keys - rest)
      decreases |rest|
    {
      var s :| s in rest;
      fs := WriteMissingOverlay(files, fs, mainConfig, registry, rest, s);
      rest := rest - {s};
    }
  }

  /** A map that agrees with the assembled configuration section by section is it. */
  lemma {:induction false} TelegrafConfigFromSections(files: Files, registry: Registry, cfg: TomlObject)
    requires Readable(files, MainConfig) && OverlaysReadable(files, registry) && MainConfig in files
    requires var main := ReadToml(Some(files[MainConfig]));
      && (forall s :: s in cfg <==> s in main || Overlaid(registry, s))
      && (forall s :: s in cfg ==> cfg[s] == if Overlaid(registry, s) then OverlaySection(files, registry, s) else main[s])
    ensures cfg == TelegrafConfig(files, registry)
  {
    var target := TelegrafConfig(files, registry);
    forall s | s in cfg
      ensures s in target && cfg[s] == target[s]
    {
      TelegrafConfigSections(files, registry, s);
    }
    forall s | s in target
      ensures s in cfg
    {
      TelegrafConfigSections(files, registry, s);
    }
  }

  /** getTelegrafConfig() over the files and the registry: whether the main file exists, and
      the assembled configuration. */
  method GetTelegrafConfig(files: Files, registry: Registry) returns (ok: bool, cfg: TomlObject)
    requires Readable(files, MainConfig) && OverlaysReadable(files, registry)
    ensures ok <==> MainConfig in files
    ensures !ok ==> cfg == map[]
    ensures cfg == TelegrafConfig(files, registry)
  {
    if MainConfig !in files {
      return false, map[];
    }
    var main := ReadTomlFile(Some(files[MainConfig]));
    cfg := main;
    var rest := registry.Keys;
    while rest != {}
      invariant rest <= registry.Keys
      invariant forall s :: s in cfg <==> s in main || (Overlaid(registry, s) && s !in rest)
      invariant forall s :: s in cfg ==>
        cfg[s] == if Overlaid(registry, s) && s !in rest then OverlaySection(files, registry, s) else main[s]
      decreases |rest|
    {
      var sectionName :| sectionName in rest;
      if !StartsWith(sectionName, WebOSPrefix) {
        var subConfig := ReadTomlFile(FileContent(files, SectionConfigPath(registry, sectionName)));
        cfg := cfg[sectionName := SectionOf(subConfig, sectionName)];
      }
      rest := rest - {sectionName};
    }
    TelegrafConfigFromSections(files, registry, cfg);
    ok := true;
  }

  /** updateSectionConfig's rewrite of one overlay over the files; always true. */
  method WriteSectionUpdate(files: Files, registry: Registry, section: string, input: TomlObject) returns (ok: bool, fs: Files)
    requires Overlaid(registry, section) ==> Readable(files, SectionConfigPath(registry, section))
    ensures ok
    ensures !Overlaid(registry, section) ==> fs == files
    ensures Overlaid(registry, section) ==>
      var path := SectionConfigPath(registry, section);
      && path in fs && fs == files[path := fs[path]]
      && WrittenAs(fs[path], section, SectionUpdate(OverlaySection(files, registry, section), SectionOf(input, section)))
  {
    fs := files;
    if StartsWith(section, WebOSPrefix) {
      return true, fs;
    }
    var configPath := SectionConfigPath(registry, section);
    if configPath == "" {
      return true, fs;
    }
    var currentConfig := ReadTomlFile(FileContent(files, configPath));
    var requested := SectionOf(input, section);
    var merged := map[];
    if requested != map[] {
      merged := MergeSection(SectionOf(currentConfig, section), requested);
    }
    OrderingExists(merged.Keys);
    var order :| IsOrdering(order, merged.Keys);
    var text, _ := WriteTomlSection(section, merged, order);
    fs := files[configPath := text];
    assert WrittenAs(text, section, merged);
    ok := true;
  }

  /** The reaped children are the positive results before the first that is not. */
  lemma {:induction false} ReapedPrefix(results: seq<int>, i: nat)
    requires i <= |results| && (i < |results| ==> results[i] <= 0)
    requires forall j :: 0 <= j < i ==> results[j] > 0
    ensures Reaped(results) == results[..i]
    decreases i
  {
    if i > 0 {
      ReapedPrefix(results[1..], i - 1);
      assert results[1..][..i - 1] == results[1..i];
      assert results[..i] == [results[0]] + results[1..i];
    }
  }

  /** terminationHandler's loop over waitpid's results, on the tracked pid. */
  method ReapChildren(tracked: int, results: seq<int>) returns (p: int)
    ensures p == if tracked in Reaped(results) then -1 else tracked
  {
    p := tracked;
    var i := 0;
    while i < |results|
      invariant 0 <= i <= |results|
      invariant forall j :: 0 <= j < i ==> results[j] > 0
      invariant p == if tracked in results[..i] then -1 else tracked
    {
      var pid := results[i];
      if pid <= 0 {
        break;
      }
      assert results[..i + 1] == results[..i] + [pid];
      if pid == p {
        p := -1;
      }
      i := i + 1;
    }
    ReapedPrefix(results, i);
  }

  /** What updateConfig has written once the sections in `done` are visited: their overlays
      hold the updated sections, and no other file has changed. */
  ghost predicate UpdatesWritten(files: Files, fs: Files, registry: Registry, input: TomlObject, done: set<string>)
    requires forall s :: s in input && Overlaid(registry, s) ==> Readable(files, SectionConfigPath(registry, s))
  {
    && (forall p :: p !in UpdatedPaths(registry, input) ==> FileContent(fs, p) == FileContent(files, p))
    && (forall s :: s in input && Overlaid(registry, s) && s !in done ==>
          FileContent(fs, SectionConfigPath(registry, s)) == FileContent(files, SectionConfigPath(registry, s)))
    && (forall s :: s in input && Overlaid(registry, s) && s in done ==>
          SectionConfigPath(registry, s) in fs
          && WrittenAs(fs[SectionConfigPath(registry, s)], s, SectionUpdate(OverlaySection(files, registry, s), input[s])))
  }

  /** One section of updateConfig's loop. */
  method UpdateStep(ghost files: Files, fs: Files, registry: Registry, input: TomlObject, ghost done: set<string>, s: string)
    returns (fs': Files)
    requires forall s :: s in input && Overlaid(registry, s) ==> Readable(files, SectionConfigPath(registry, s))
    requires s in input && s !in done
    requires UpdatesWritten(files, fs, registry, input, done)
    ensures UpdatesWritten(files, fs', registry, input, done + {s})
  {
    if Overlaid(registry, s) {
      ghost var path := SectionConfigPath(registry, s);
      assert FileContent(fs, path) == FileContent(files, path);
      assert Readable(fs, path);
      assert OverlaySection(fs, registry, s) == OverlaySection(files, registry, s);
    }
    var _, fs1 := WriteSectionUpdate(fs, registry, s, input);
    fs' := fs1;
    if Overlaid(registry, s) {
      SectionConfigPathInjective(registry);
      ghost var path := SectionConfigPath(registry, s);
      assert path in UpdatedPaths(registry, input);
      forall x | x in input && Overlaid(registry, x) && x != s
        ensures FileContent(fs', SectionConfigPath(registry, x)) == FileContent(fs, SectionConfigPath(registry, x))
      {
        assert SectionConfigPath(registry, x) != path;
      }
    }
  }

  /** updateConfig's loop over the requested sections. */
  method WriteSectionUpdates(files: Files, registry: Registry, input: TomlObject) returns (fs: Files)
    requires forall s :: s in input && Overlaid(registry, s) ==> Readable(files, SectionConfigPath(registry, s))
    ensures forall s :: s in input && Overlaid(registry, s) ==>
      var path := SectionConfigPath(registry, s);
      path in fs && WrittenAs(fs[path], s, SectionUpdate(OverlaySection(files, registry, s), input[s]))
    ensures forall p :: p !in UpdatedPaths(registry, input) ==> FileContent(fs, p) == FileContent(files, p)
  {
    fs := files;
    var rest := input.Keys;
    while rest != {}
      invariant rest <= input.Keys
      invariant UpdatesWritten(files, fs, registry, input, input.Keys - rest)
      decreases |rest|
    {
      var s :| s in rest;
      fs := UpdateStep(files, fs, registry, input, input.Keys - rest, s);
      assert input.Keys - rest + {s} == input.Keys - (rest - {s});
      rest := rest - {s};
    }
  }

  /** updateProcstatConfig's loop: the running names, each followed by '|', then the last '|'
      taken off. */
  method ProcessPattern(names: seq<JValue>, running: string -> bool) returns (processList: string)
    ensures processList == Join(RunningNames(names, running), "|")
  {
    processList := "";
    var i := 0;
    while i < |names|
      invariant 0 <= i <= |names|
      invariant processList == Terminated(RunningNames(names[..i], running), "|")
    {
      ghost var prev := RunningNames(names[..i], running);
      var name := AsString(names[i]);
      assert names[..i + 1][..i] == names[..i] && names[..i + 1][i] == names[i];
      if running(name) {
        assert RunningNames(names[..i + 1], running) == prev + [name];
        TerminatedSnoc(prev, name, "|");
        processList := processList + (name + "|");
      } else {
        assert RunningNames(names[..i + 1], running) == prev + [];
        assert prev + [] == prev;
      }
      i := i + 1;
    }
    assert names[..i] == names;
    if RunningNames(names, running) != [] {
      TerminatedJoin(RunningNames(names, running), "|");
    }
    if |processList| > 0 && processList[|processList| - 1] == '|' {
      processList := processList[..|processList| - 1];
    }
  }

  /** An object that agrees with the replaced document member by member is it. */
  lemma {:induction false} ReplaceFromMembers(json: JValue, input: TomlObject, toJson: string -> JValue, fields: map<string, JValue>)
    requires json.JObject?
    requires forall s :: s in fields <==> s in json.fields || s in WebOSSections(input)
    requires forall s :: s in fields ==>
      fields[s] == if s in WebOSSections(input) then SectionJson(input[s], toJson) else json.fields[s]
    ensures JObject(fields) == ReplaceWebOSSections(json, input, toJson)
  {
    var target := ReplaceWebOSSections(json, input, toJson).fields;
    assert fields.Keys == target.Keys;
    assert forall s :: s in fields ==> fields[s] == target[s];
  }

  /** updateWebOSConfig's loop: put each webOS.* input section into the document (put on a
      value that is no object changes nothing). */
  method PutWebOSSections(json: JValue, input: TomlObject, toJson: string -> JValue) returns (r: JValue)
    ensures r == ReplaceWebOSSections(json, input, toJson)
  {
    if !json.JObject? {
      return json;
    }
    r := json;
    var rest := input.Keys;
    while rest != {}
      invariant rest <= input.Keys
      invariant r.JObject?
      invariant forall s :: s in r.fields <==> s in json.fields || (s in WebOSSections(input) && s !in rest)
      invariant forall s :: s in r.fields ==>
        r.fields[s] == if s in WebOSSections(input) && s !in rest then SectionJson(input[s], toJson) else json.fields[s]
      decreases |rest|
    {
      var s :| s in rest;
      if StartsWith(s, WebOSPrefix) {
        var obj := MakeSectionJson(input[s], toJson);
        r := Put(r, s, obj);
      }
      rest := rest - {s};
    }
    ReplaceFromMembers(json, input, toJson, r.fields);
  }

  // ---------------------------------------------------------------------------------------
  // The controller

  /** TelegrafController with the state it shares: the registry, the files, the sidecar, and
      the static members pid_, lastStartedTime and _allConfig. Time is a number of
      milliseconds. */
  class Controller {
    var registry: Registry
    var files: Files
    var sidecar: Option<JValue>
    var pid: int
    var lastStartedTime: int
    var allConfig: TomlObject

    /** The constructor splits the main file against the default registry, and only then
        loads the manifest; pid_ starts at -1. */
    constructor(files0: Files, sidecar0: Option<JValue>, manifest: Manifest, disable: (Option<string>, set<string>) -> Option<string>)
      requires Readable(files0, MainConfig)
      ensures SplitDone(files0, files, DefaultRegistry, disable)
      ensures registry == LoadedRegistry(DefaultRegistry, manifest)
      ensures sidecar == sidecar0 && pid == -1 && lastStartedTime == 0 && allConfig == map[]
    {
      registry := DefaultRegistry;
      files := files0;
      sidecar := sidecar0;
      pid := -1;
      lastStartedTime := 0;
      allConfig := map[];
      new;
      SplitMainConfig(disable);
      InitAvailableConfigurations(manifest);
    }

    /** initAvailableConfigurations(), with what became of the manifest file. */
    method InitAvailableConfigurations(manifest: Manifest)
      modifies this
      ensures files == old(files) && sidecar == old(sidecar) && pid == old(pid)
      ensures lastStartedTime == old(lastStartedTime) && allConfig == old(allConfig)
      ensures registry == LoadedRegistry(old(registry), manifest)
    {
      if manifest.NoManifest? || manifest.Unparsable? {
        return;
      }
      var reg: Registry := map[];
      if manifest.available.Some? {
        var avail := manifest.available.value;
        var sections := avail.Keys;
        while sections != {}
          invariant sections <= avail.Keys
          invariant forall s :: s in reg <==> s in avail && s !in sections
          invariant forall s :: s in reg ==> reg[s] == set t | t in avail[s]
          decreases |sections|
        {
          var s :| s in sections;
          var configs := avail[s];
          var allowed: set<string> := {};
          var i := 0;
          while i < |configs|
            invariant 0 <= i <= |configs|
            invariant allowed == set t | t in configs[..i]
          {
            assert configs[..i + 1] == configs[..i] + [configs[i]];
            allowed := allowed + {configs[i]};
            i := i + 1;
          }
          assert configs[..i] == configs;
          reg := reg[s := allowed];
          sections := sections - {s};
        }
      }
      registry := reg;
    }

    /** splitMainConfig(), with disableTomlSection's effect on the main file as `disable`. */
    method SplitMainConfig(disable: (Option<string>, set<string>) -> Option<string>)
      requires Readable(files, MainConfig)
      modifies this
      ensures registry == old(registry) && sidecar == old(sidecar) && pid == old(pid)
      ensures lastStartedTime == old(lastStartedTime) && allConfig == old(allConfig)
      ensures SplitDone(old(files), files, registry, disable)
    {
      var mainConfig := ReadTomlFile(FileContent(files, MainConfig));
      var fs := WriteMissingOverlays(files, mainConfig, registry);
      var plugins := registry.Keys;
      var disabled := disable(FileContent(fs, MainConfig), plugins);
      ghost var before := files;
      files := WithFile(fs, MainConfig, disabled);
      assert forall p :: p != MainConfig ==> (p in files <==> p in fs) && (p in fs ==> files[p] == fs[p]);
    }

    /** readwebOSConfigJson(): the sidecar's document, creating the file as "{}" when it is
        missing. */
    method ReadWebOSConfigJson() returns (json: JValue)
      modifies this
      ensures registry == old(registry) && files == old(files) && pid == old(pid)
      ensures lastStartedTime == old(lastStartedTime) && allConfig == old(allConfig)
      ensures json == SidecarValue(old(sidecar)) && sidecar == Some(json)
    {
      if sidecar.None? {
        sidecar := Some(JObject(map[]));
      }
      json := sidecar.value;
    }

    /** loadConfig(): _allConfig from the files, and, when there is a main file, the webOS
        flags from the sidecar. */
    method LoadConfig()
      requires Loadable(files, registry, sidecar)
      modifies this
      ensures registry == old(registry) && files == old(files) && pid == old(pid)
      ensures lastStartedTime == old(lastStartedTime)
      ensures (allConfig, sidecar) == LoadResult(files, registry, old(sidecar))
    {
      var ret, all := GetTelegrafConfig(files, registry);
      if ret {
        var json := ReadWebOSConfigJson();
        var wps := Get(json, WebProcessSize);
        if HasKey(json, WebProcessSize) && HasKey(wps, "enabled") {
          SetParamTwice(all, WebProcessSize, "enabled", "false", "true");
          all := SetParam(all, WebProcessSize, "enabled", "false");
          if AsBool(Get(wps, "enabled")) {
            all := SetParam(all, WebProcessSize, "enabled", "true");
          }
        }
        var pm := Get(json, ProcessMonitoring);
        if HasKey(json, ProcessMonitoring) && HasKey(pm, "enabled") {
          SetParamTwice(all, ProcessMonitoring, "enabled", "false", "true");
          all := SetParam(all, ProcessMonitoring, "enabled", "false");
          if AsBool(Get(pm, "enabled")) {
            all := SetParam(all, ProcessMonitoring, "enabled", "true");
            var processList := RenderProcessList(Get(pm, "process_name"));
            all := SetParam(all, ProcessMonitoring, "process_name", processList);
          }
        }
      }
      allConfig := all;
    }

    /** getConfig(): reload, then return _allConfig. */
    method GetConfig() returns (cfg: TomlObject)
      requires Loadable(files, registry, sidecar)
      modifies this
      ensures registry == old(registry) && files == old(files) && pid == old(pid)
      ensures lastStartedTime == old(lastStartedTime)
      ensures (cfg, sidecar) == LoadResult(files, registry, old(sidecar)) && allConfig == cfg
    {
      LoadConfig();
      cfg := allConfig;
    }

    /** isRunning(), with `alive` whether kill(pid_, 0) succeeds. */
    method IsRunning(alive: bool) returns (r: bool)
      ensures r <==> pid > 0 && alive
      ensures pid <= 0 ==> !r
    {
      r := false;
      if pid > 0 {
        r := alive;
      }
    }

    /** start(), with `alive` for isRunning's probe, posix_spawn's outcome and the clock. */
    method Start(alive: bool, spawn: SpawnResult, now: int)
      requires StartSucceeds(pid, alive, spawn) ==> Loadable(files, registry, sidecar)
      modifies this
      ensures registry == old(registry) && files == old(files)
      ensures old(pid) > 0 && alive ==> pid == old(pid)
      ensures !(old(pid) > 0 && alive) ==> pid == if spawn.Spawned? then spawn.child else old(pid)
      ensures StartSucceeds(old(pid), alive, spawn) ==>
        lastStartedTime == now && (allConfig, sidecar) == LoadResult(files, registry, old(sidecar))
      ensures !StartSucceeds(old(pid), alive, spawn) ==>
        lastStartedTime == old(lastStartedTime) && allConfig == old(allConfig) && sidecar == old(sidecar)
    {
      var running := IsRunning(alive);
      if !running {
        if spawn.Spawned? {
          pid := spawn.child;
        }
        if spawn.Spawned? && pid != 0 {
          lastStartedTime := now;
          LoadConfig();
        }
      }
    }

    /** stop(), with `killOk` whether kill(pid_, SIGTERM) succeeds; waitpid then returns once
        the collector has exited. */
    method Stop(killOk: bool)
      modifies this
      ensures registry == old(registry) && files == old(files) && sidecar == old(sidecar)
      ensures lastStartedTime == old(lastStartedTime) && allConfig == old(allConfig)
      ensures pid == if old(pid) > 0 && killOk then -1 else old(pid)
    {
      if pid <= 0 {
        return;
      }
      if killOk {
        pid := -1;
      }
    }

    /** restart(): stop, then start; `alive` probes whatever pid is tracked after stopping. */
    method Restart(killOk: bool, alive: bool, spawn: SpawnResult, now: int)
      requires var p := if pid > 0 && killOk then -1 else pid;
        StartSucceeds(p, alive, spawn) ==> Loadable(files, registry, sidecar)
      modifies this
      ensures registry == old(registry) && files == old(files)
      ensures var p := if old(pid) > 0 && killOk then -1 else old(pid);
        && (p > 0 && alive ==> pid == p)
        && (!(p > 0 && alive) ==> pid == if spawn.Spawned? then spawn.child else p)
        && (StartSucceeds(p, alive, spawn) ==> lastStartedTime == now && (allConfig, sidecar) == LoadResult(files, registry, old(sidecar)))
        && (!StartSucceeds(p, alive, spawn) ==> lastStartedTime == old(lastStartedTime) && allConfig == old(allConfig) && sidecar == old(sidecar))
    {
      Stop(killOk);
      Start(alive, spawn, now);
    }

    /** terminationHandler(SIGCHLD), with `results` the values waitpid(-1, NULL, WNOHANG)
        returns in turn: the tracked pid is cleared only when it is among the reaped ones. */
    method TerminationHandler(results: seq<int>)
      modifies this
      ensures registry == old(registry) && files == old(files) && sidecar == old(sidecar)
      ensures lastStartedTime == old(lastStartedTime) && allConfig == old(allConfig)
      ensures pid == if old(pid) in Reaped(results) then -1 else old(pid)
      ensures old(pid) <= 0 ==> pid == old(pid)
    {
      pid := ReapChildren(pid, results);
    }

    /** updateSectionConfig(section, inputConfig). */
    method UpdateSectionConfig(section: string, input: TomlObject) returns (ok: bool)
      requires Overlaid(registry, section) ==> Readable(files, SectionConfigPath(registry, section))
      modifies this
      ensures registry == old(registry) && sidecar == old(sidecar) && pid == old(pid)
      ensures lastStartedTime == old(lastStartedTime) && allConfig == old(allConfig)
      ensures ok
      ensures !Overlaid(registry, section) ==> files == old(files)
      ensures Overlaid(registry, section) ==>
        var path := SectionConfigPath(registry, section);
        && path in files && files == old(files)[path := files[path]]
        && WrittenAs(files[path], section, SectionUpdate(OverlaySection(old(files), registry, section), SectionOf(input, section)))
    {
      ok, files := WriteSectionUpdate(files, registry, section, input);
    }

    /** updateProcstatConfig(webOSConfigJson), with `running` whether pgrep finds a process. */
    method UpdateProcstatConfig(json: JValue, running: string -> bool)
      modifies this
      ensures registry == old(registry) && sidecar == old(sidecar) && pid == old(pid)
      ensures lastStartedTime == old(lastStartedTime) && allConfig == old(allConfig)
      ensures files == WithFile(old(files), ProcstatConfig, ProcstatFile(json, running))
    {
      var pm := Get(json, ProcessMonitoring);
      if HasKey(json, ProcessMonitoring) && HasKey(pm, "enabled") && AsBool(Get(pm, "enabled")) {
        var processName := Get(pm, "process_name");
        if processName.JArray? {
          var processList := ProcessPattern(processName.items, running);
          if |processList| > 0 {
            files := files[ProcstatConfig := ProcstatText(processList)];
            return;
          }
        }
      }
      files := files - {ProcstatConfig};
    }

    /** updateWebOSConfig(inputConfig): replace the webOS.* sections of the sidecar, update the
        procstat file from the result, and write the sidecar. */
    method UpdateWebOSConfig(input: TomlObject, toJson: string -> JValue, running: string -> bool)
      modifies this
      ensures registry == old(registry) && pid == old(pid)
      ensures lastStartedTime == old(lastStartedTime) && allConfig == old(allConfig)
      ensures sidecar == Some(ReplaceWebOSSections(SidecarValue(old(sidecar)), input, toJson))
      ensures files == WithFile(old(files), ProcstatConfig, ProcstatFile(sidecar.value, running))
    {
      var json := ReadWebOSConfigJson();
      json := PutWebOSSections(json, input, toJson);
      UpdateProcstatConfig(json, running);
      sidecar := Some(json);
    }

    /** updateConfig(inputConfig): every section's overlay, then the sidecar; always true. */
    method UpdateConfig(input: TomlObject, toJson: string -> JValue, running: string -> bool) returns (ok: bool)
      requires forall s :: s in input && Overlaid(registry, s) ==> Readable(files, SectionConfigPath(registry, s))
      modifies this
      ensures registry == old(registry) && pid == old(pid)
      ensures lastStartedTime == old(lastStartedTime) && allConfig == old(allConfig)
      ensures ok
      ensures forall s :: s in input && Overlaid(registry, s) ==>
        var path := SectionConfigPath(registry, s);
        path in files && WrittenAs(files[path], s, SectionUpdate(OverlaySection(old(files), registry, s), input[s]))
      ensures forall p :: p != ProcstatConfig && p !in UpdatedPaths(registry, input) ==> FileContent(files, p) == FileContent(old(files), p)
      ensures sidecar == Some(ReplaceWebOSSections(SidecarValue(old(sidecar)), input, toJson))
      ensures FileContent(files, ProcstatConfig) == ProcstatFile(sidecar.value, running)
    {
      files := WriteSectionUpdates(files, registry, input);
      ghost var written := files;
      UpdateWebOSConfig(input, toJson, running);
      OverlayIsNoOtherFile(registry);
      ok := true;
    }
  }
}
