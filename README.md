# sdkagent collector core, modelled in Dafny

The webOS service `com.webos.service.sdkagent` runs and configures the telegraf metrics
collector. This project models the parts of it that are deterministic text and state
handling, and proves their properties:

- **TomlParser** (`toml_parser.dfy`): the line-oriented TOML reader and writer. A file's
  content is a map from section to a map from key to raw value text. Also the trim and
  space-removal helpers, the splitter for bracketed values, the JSON array renderer and the
  TOML-to-JSON text renderer.
- **TelegrafController** (`telegraf_controller.dfy`): the collector configuration store.
  - An allow-list registry of the sections and parameters a client may set, and its
    manifest loader.
  - The main `telegraf.conf` with one overlay file per registered section, the split of the
    main file into overlays, and assembly of the effective configuration.
  - Per-section key merges, wholesale replacement of the `webOS.*` sections of the JSON
    sidecar, and the procstat plugin file.
  - The pid of the spawned collector as the state of class `Controller`.
- **ThreadForInterval** (`thread_for_interval.dfy`): the once-a-second sampler.
  - The interval parser and the "recently started" check.
  - The countdown of `intervalHandle_process`.
  - The per-pid CPU-time cache and the metric lines it sends.
  - Target-name resolution, where each requested name is taken at most once.
  - The sampler's globals are the fields of class `Sampler`.
- **CollectorApi** (`luna_api_collector.dfy`): the text handling of the older Luna category
  `lunaApiCollector`, namely:
  - the trim helpers and the case-insensitive `setConfig` check;
  - the streaming `telegraf.conf` rewriter and the quote-aware `getConfig` reader;
  - `convertDataToJson`, and the `getData` command builder and output splitter.
- **Common** (`common.dfy`): the output-accumulation loop of `executeCommand`, over the chunks
  `getline` returns.
- **ErrorCode** (`error_code.dfy`): the reply catalogue of `getErrorMessage`.
- Support modules:
  - **CppString** (`cpp_string.dfy`): the `std::string` search, split, join and `atoi`
    operations, and `getline` over a text.
  - **JsonValue** (`json_value.dfy`): the parsed JSON values the code reads.
  - **Unordered** (`unordered.dfy`): iteration orders of `unordered_map`.

How the environment is modelled:

- The file system is a map from path to text. A missing file is a missing key.
- Shell commands become functions or values passed in: `pgrep`, `ps`, `systemctl`,
  `telegraf -test`, the `/proc` reads, `kill`, `posix_spawn` and `waitpid`. All of them are
  given as parameters.
- Iteration over an `unordered_map` or a json-c object follows an explicit order parameter,
  which is any ordering of the keys. Every serialisation property is proved for every order.
  Loops that pick the next key themselves pick it with `:|`.
- `getData` receives the output of `LunaApiBaseCategory::executeCommand`
  (src/lunaApi/lunaApiBaseCategory.cpp:156-185), which removes every newline. The records
  between the `"> "` dividers therefore end in their time, and the `length() - 1` count of
  the time cut drops the time's last character (`CollectorApi.RecordOfUnterminatedLine`). A
  newline-terminated record would lose only its newline (`CollectorApi.RecordOfLine`). The
  output itself is the parameter `run`, so both forms are covered.
- Integers are unbounded. `stringToPositiveInt` models the `int` range check of `std::stoi`
  explicitly.

Where the header and the code differ, the model follows the code:

- `telegrafController.h` declares `SDKError start()`, `stop()` and `restart()`, and a
  `setConfig`.
- `telegrafController.cpp` defines `void` bodies for the first three and no `setConfig`.

## Model

| member | source | states |
|---|---|---|
| `ErrorCode.ReplyOf` | src/util/errorCode.cpp:21-50 | Every listed error kind is a failure (`returnValue` false) with a non-zero single-digit code; the default is the only success, with code 0 |
| `ErrorCode.CodesDistinct` | src/util/errorCode.cpp:23-45 | Distinct kinds carry distinct error codes (1 to 6 for the six errors, 0 otherwise) |
| `ErrorCode.RendersDistinct` | src/util/errorCode.cpp:24-48 | Two replies that differ in their code have different JSON texts |
| `ErrorCode.RenderFields` | src/util/errorCode.cpp:24-48 | The rendered reply carries `returnValue` and the code digit at fixed positions, which is what distinguishes replies |
| `ErrorCode.MessagesDistinct` | src/util/errorCode.cpp:19-50 | `getErrorMessage` is injective: distinct kinds get distinct reply texts |
| `ErrorCode.GetErrorMessage` | src/util/errorCode.cpp:19-50 | The JSON reply text of an error kind: its `returnValue`, code and fixed text; distinct kinds give distinct texts (`MessagesDistinct`) |
| `Common.ExecuteCommand` | src/util/common.cpp:30-57 | The accumulation loop and the final pop compute `CommandOutput` of the chunks `getline` returned |
| `Common.AccumulatedIsConcatenation` | src/util/common.cpp:33-49 | The loop's text is the concatenation of the chunks, each newline replaced by a space (`linefeedToSpace`) or removed |
| `Common.StepIsAppend` | src/util/common.cpp:39-48 | One turn of the loop appends the chunk with its newline handled and changes nothing before it |
| `Common.WithoutLinefeedToSpace` | src/util/common.cpp:33-49 | Without `linefeedToSpace` the result is the chunks concatenated, each with its single trailing newline removed |
| `Common.WithLinefeedToSpace` | src/util/common.cpp:41-53 | With `linefeedToSpace` the result is the concatenation with each newline as a space, less one final space when it ends with one |
| `Common.TrailingSpaceOfOutputRemoved` | src/util/common.cpp:50-53 | The final pop also removes a space the command printed itself (`"a "` gives `"a"`) |
| `Common.NoChunks` | src/util/common.cpp:30-57 | A command that prints nothing gives `""` |
| `Common.OutputHasNoNewline` | src/util/common.cpp:30-57 | The result never contains a newline |
| `Common.ConcatPiecesHasNoNewline` | src/util/common.cpp:39-48 | The concatenated pieces hold no newline, for either setting of `linefeedToSpace` |
| `CppString.Find` | src/util/tomlParser.cpp:177 | `find(t, from)` is the first occurrence at or after `from`, or none |
| `CppString.FindChar` | src/util/tomlParser.cpp:74 | `find(c, from)` is the first index at or after `from` holding `c`, or none |
| `CppString.FindFirstNotOf` | src/util/tomlParser.cpp:101 | `find_first_not_of` is the first index outside the set, or none when all are in it |
| `CppString.FindLastNotOf` | src/util/tomlParser.cpp:112 | `find_last_not_of` is the last index outside the set, or none |
| `CppString.SplitOn` | src/util/tomlParser.cpp:70-81 | A split always yields at least one piece |
| `CppString.SplitOnPieces` | src/util/tomlParser.cpp:70-81 | The pieces of a split hold no delimiter, and joining them with it gives the text back |
| `CppString.SplitOnCount` | src/util/tomlParser.cpp:71-80 | A split has exactly one piece more than the text has delimiters |
| `CppString.SplitOnJoin` | src/util/tomlParser.cpp:70-81 | Splitting a join of delimiter-free parts gives the parts back |
| `CppString.Decimal` | src/lunaApi/threadForInterval.cpp:321 | The decimal rendering of a number is a non-empty run of digits |
| `CppString.DecimalValue` | src/lunaApi/threadForInterval.cpp:321 | The decimal rendering of `n` has digit value `n` |
| `CppString.DigitPrefixOfDecimal` | src/lunaApi/threadForInterval.cpp:321-335 | `atoi` stops exactly at the end of a digit run followed by a non-digit |
| `CppString.Atoi` | src/lunaApi/threadForInterval.cpp:321-336 | `atoi`: the optionally signed digits after leading white space, or 0 when there are none; a decimal rendering reads back as its number (`AtoiDecimal`) |
| `CppString.AtoiDecimal` | src/lunaApi/threadForInterval.cpp:321-335 | `atoi` reads a decimal rendering followed by a non-digit back as that number |
| `CppString.GetLines` | src/util/tomlParser.cpp:99 | The lines `getline` yields: the pieces between newlines, a final newline starting no extra line; they hold no newline and read back what `Unlines` writes (`GetLinesNoNewlines`, `GetLinesUnlines`) |
| `CppString.GetLinesNoNewlines` | src/util/tomlParser.cpp:99 | No line `getline` returns holds a newline |
| `CppString.UnlinesAsJoin` | src/util/tomlParser.cpp:138-145 | Writing lines each followed by a newline is joining them with a newline and adding a final one |
| `CppString.UnlinesAppend` | src/util/tomlParser.cpp:138-145 | Writing two runs of lines in turn is writing their concatenation |
| `CppString.GetLinesUnlines` | src/util/tomlParser.cpp:99 | Reading back a text written one line per newline gives the same lines |
| `Unordered.OrderingExists` | include/util/tomlParser.h:9-13 | Every key set of an `unordered_map` has an iteration order |
| `Unordered.OrderingLength` | include/util/tomlParser.h:9-13 | An iteration order has exactly as many entries as there are keys |
| `Unordered.OrderingTail` | include/util/tomlParser.h:9-13 | After the first key, the rest of an iteration order visits the remaining keys |
| `TomlParser.TrimSpaces` | src/util/tomlParser.cpp:20-35 | The trim of a text has no leading or trailing space and is no longer than the text |
| `TomlParser.TrimSpacesOf` | src/util/tomlParser.cpp:20-35 | Spaces, then an unpadded core, then spaces trims to exactly that core |
| `TomlParser.TrimSpacesFrames` | src/util/tomlParser.cpp:20-35 | Every text is its trim framed by spaces, so the trim is a contiguous substring |
| `TomlParser.TrimSpacesEmpty` | src/util/tomlParser.cpp:26-33 | A text trims to `""` if and only if it is empty or all spaces |
| `TomlParser.TrimSpacesIdempotent` | src/util/tomlParser.cpp:20-35 | Trimming twice is trimming once |
| `TomlParser.TrimStringRange` | src/util/tomlParser.cpp:6-18 | The three-argument form returns `""` when `first >= size`, `last < 0` or the range is empty, and otherwise the trim of `str[first..last]` |
| `TomlParser.TrimmedRange` | src/util/tomlParser.cpp:11-17 | The two scans stop at the first and last non-space of the range, or cross when it is all spaces |
| `TomlParser.TrimString` | src/util/tomlParser.cpp:20-35 | The loops of the one-argument form compute the trim (only `' '` is removed) |
| `TomlParser.RemoveAllSpaces` | src/util/tomlParser.cpp:50-62 | The result has no space and is no longer than the input |
| `TomlParser.RemoveAllSpacesMultiset` | src/util/tomlParser.cpp:50-62 | Exactly the spaces are removed; every other character keeps its count |
| `TomlParser.RemoveAllSpacesAppend` | src/util/tomlParser.cpp:50-62 | Removing the spaces distributes over concatenation |
| `TomlParser.RemoveAllSpacesNoSpaces` | src/util/tomlParser.cpp:50-62 | A text without spaces is left unchanged |
| `TomlParser.RemoveAllSpacesIdempotent` | src/util/tomlParser.cpp:50-62 | Removing the spaces twice is removing them once |
| `TomlParser.RemoveAllSpacesInPlace` | src/util/tomlParser.cpp:37-48 | The write-cursor compaction in place leaves `removeAllSpaces` of the old contents as the array's prefix |
| `TomlParser.ParseConfigValue` | src/util/tomlParser.cpp:64-82 | The caller's string loses its spaces, and the result is its elements: one for a value not starting with `[`, otherwise the comma-separated pieces inside the brackets |
| `TomlParser.SplitElements` | src/util/tomlParser.cpp:70-81 | The `find(',')` loop produces the bracketed elements in order, the last one without its closing bracket |
| `TomlParser.ConfigValueElementCount` | src/util/tomlParser.cpp:68-81 | A bracketed value has exactly one element more than it has commas |
| `TomlParser.ConfigValueRoundTrip` | src/util/tomlParser.cpp:64-82 | `[e1,...,en]` with comma-free elements parses back to `e1 ... en` |
| `TomlParser.FixDoubleForwardSlash` | src/util/tomlParser.cpp:169-185 | Without `\/\/` the text is unchanged; otherwise its first occurrence becomes `//` and the text around keeps its characters |
| `TomlParser.FixDoubleForwardSlashFirstOnly` | src/util/tomlParser.cpp:177-182 | Only the first `\/\/` is replaced; a second one survives |
| `TomlParser.ToStringArr` | src/util/tomlParser.cpp:187-198 | The loop and the closing-bracket patch produce `ArrayText`: the fixed element texts, comma-separated, in brackets |
| `TomlParser.EmptyArrayText` | src/util/tomlParser.cpp:189-196 | An empty array renders as `"]"`, which reads back as one element `"]"` rather than an empty list |
| `TomlParser.ArrayTextParsesBack` | src/util/tomlParser.cpp:64-82 | A non-empty array rendered by `toStringArr` reads back through `parseConfigValue` as its fixed element texts, when those hold no comma and no space |
| `TomlParser.ReadToml` | src/util/tomlParser.cpp:85-133 | What `readTomlFile` returns: the empty object for a file that cannot be opened or holds a malformed line, otherwise the sections read line by line (`ReadLinesStep`, `MalformedLineDiscardsAll`, `WriteTomlFileReadsBack`) |
| `TomlParser.ReadTomlFile` | src/util/tomlParser.cpp:85-133 | The `getline` loop over the file's lines computes `ReadToml` of the content, and an unreadable file gives the empty object |
| `TomlParser.ReadTomlLine` | src/util/tomlParser.cpp:101-128 | One pass skips a blank or comment line, starts a section at a header, sets a key on a `key=value` line, and clears everything on any other line |
| `TomlParser.ReadLinesStep` | src/util/tomlParser.cpp:99-128 | Reading from any line on is that line's pass followed by reading the rest, and a pass that clears stops the reading |
| `TomlParser.ReadLinesAppend` | src/util/tomlParser.cpp:99-128 | Reading two runs of lines in turn is reading their concatenation |
| `TomlParser.MalformedLineDiscardsAll` | src/util/tomlParser.cpp:118-123 | A non-blank, non-comment, non-header line without `=` anywhere in the file makes the result empty, whatever was read before |
| `TomlParser.SkippedLineIsIgnored` | src/util/tomlParser.cpp:101-105 | Blank and comment lines can be added or removed anywhere without changing the result |
| `TomlParser.HeaderStripsBrackets` | src/util/tomlParser.cpp:108-116 | A header names its section by stripping the surrounding spaces, `[` and `]`, and resets the section to empty |
| `TomlParser.DoubleBracketHeader` | src/util/tomlParser.cpp:108-116 | `[[a]]` names section `a`, as `[a]` does |
| `TomlParser.KeyValueLine` | src/util/tomlParser.cpp:118-128 | On a `key=value` line the key is the trimmed text before the first `=` and the value is the rest with every space removed |
| `TomlParser.ClassifyKeyValue` | src/util/tomlParser.cpp:101-128 | A line whose first non-space is neither `#` nor `[` and that has an `=` is a key line split at its first `=` |
| `TomlParser.KeysBeforeHeaderGoToUnnamedSection` | src/util/tomlParser.cpp:96-128 | Parameters before the first header land in section `""` |
| `TomlParser.SectionLinesRead` | src/util/tomlParser.cpp:99-128 | Reading a header and its entry lines leaves exactly those entries in that section, whatever was read before |
| `TomlParser.WriteTomlSection` | src/util/tomlParser.cpp:135-149 | The text written is `[name]` and then one unindented `key=value` line per parameter in iteration order, and the result is always true |
| `TomlParser.WriteTomlSectionReadsBack` | src/util/tomlParser.cpp:85-149 | Reading back what `writeTomlSection` wrote gives exactly `{name: section}`, for every iteration order, when names, keys and values are representable |
| `TomlParser.WriteSectionLines` | src/util/tomlParser.cpp:157-161 | The inner loop of `writeTomlFile` appends the header and the parameters, each indented by two spaces |
| `TomlParser.WriteTomlFile` | src/util/tomlParser.cpp:151-167 | The text written is every section's header and indented parameter lines, in iteration order |
| `TomlParser.FileLinesRead` | src/util/tomlParser.cpp:85-167 | The lines `writeTomlFile` writes are readable and read back as the sections written, in any iteration order |
| `TomlParser.WriteTomlFileReadsBack` | src/util/tomlParser.cpp:85-167 | Reading back what `writeTomlFile` wrote gives the object again, for every iteration order, when names, keys and values are representable |
| `TomlParser.AppendSection` | src/util/tomlParser.cpp:240-259 | One pass of the outer loop appends the section's quoted name, its `"key": raw` entries one level deeper, and the closing brace, the comma after the last entry patched to a space |
| `TomlParser.AppendSections` | src/util/tomlParser.cpp:238-260 | The outer loop appends every section block, each followed by `,\n` |
| `TomlParser.JsonText` | src/util/tomlParser.cpp:230-270 | The JSON text of a TOML object, independent of the patching loop: one object per section with the values as raw text, comma-separated, each level indented by four more spaces; `tomlObjectToJsonString` builds exactly this text (`TomlObjectToJsonString`) |
| `TomlParser.TomlObjectToJsonString` | src/util/tomlParser.cpp:230-270 | The text built and patched is `JsonText`: the sections as objects of raw, unquoted values, with no trailing comma in any list |
| `TomlParser.PatchComma` | src/util/tomlParser.cpp:250-265 | Overwriting the comma of the final `,\n` with a space turns a comma-terminated list into a comma-separated one |
| `TomlParser.CloseObject` | src/util/tomlParser.cpp:262-267 | With sections, the comma after the last one is overwritten, then the closing brace is added; without sections only the brace is added |
| `TomlParser.EmptyObjectJson` | src/util/tomlParser.cpp:236-267 | An empty object gives `indent + "{\n" + indent + "}"` |
| `JsonValue.AsStrings` | src/lunaApi/threadForInterval.cpp:260-262 | `asString()` of each element, in order |
| `TelegrafController.CheckInputConfig` | src/lunaApi/telegrafController.cpp:445-463 | The loops return true if and only if the input is non-empty, every section is registered and every key is allowed in its section, compared exactly |
| `TelegrafController.DefaultRegistryIsCaseSensitive` | src/lunaApi/telegrafController.cpp:40-46 | Under the default registry `agent.interval` is accepted, while `Agent`, `Interval` and the empty input are refused |
| `TelegrafController.ManifestKeysKeepQuotes` | src/lunaApi/telegrafController.cpp:106-118 | Manifest keys are stored as their JSON text, quotes included, so a request without quotes is refused |
| `TelegrafController.LoadedRegistry` | src/lunaApi/telegrafController.cpp:94-120 | The registry after `initAvailableConfigurations`: kept without a parsable manifest, emptied when the document has no `availableConfiguration`, otherwise exactly its sections and elements (`LoadedRegistryCases`) |
| `TelegrafController.LoadedRegistryCases` | src/lunaApi/telegrafController.cpp:94-120 | A missing, empty or unparsable manifest keeps the registry; a document without `availableConfiguration` leaves it empty, refusing every request; otherwise the registry has exactly the manifest's sections and elements |
| `TelegrafController.Controller.InitAvailableConfigurations` | src/lunaApi/telegrafController.cpp:94-120 | An empty or unparsable manifest keeps the registry; a parsed one clears it and fills it from `availableConfiguration`, or leaves it empty without that member; nothing else changes |
| `TelegrafController.SectionConfigPath` | src/lunaApi/telegrafController.cpp:48-54 | The path is non-empty if and only if the section is registered |
| `TelegrafController.SectionConfigPathInjective` | src/lunaApi/telegrafController.cpp:48-54 | Distinct sections get distinct overlay files |
| `TelegrafController.OverlayIsNoOtherFile` | src/lunaApi/telegrafController.cpp:31-36 | No overlay path is the main file or the procstat file |
| `TelegrafController.GetTelegrafConfig` | src/lunaApi/telegrafController.cpp:67-92 | The result is false with an empty object exactly when the main file is missing, and otherwise the assembled configuration |
| `TelegrafController.TelegrafConfig` | src/lunaApi/telegrafController.cpp:67-92 | The configuration `getTelegrafConfig` assembles: the main file's sections, each registered non-`webOS.` one taken from its overlay file (`TelegrafConfigSections`, `SplitKeepsOverlaidSection`) |
| `TelegrafController.TelegrafConfigSections` | src/lunaApi/telegrafController.cpp:77-89 | Every registered non-`webOS.` section is replaced wholesale by its overlay's section, which is empty without an overlay; every other main section passes through unchanged |
| `TelegrafController.SetParamTwice` | src/lunaApi/telegrafController.cpp:135-161 | Setting a parameter twice leaves the second value |
| `TelegrafController.WrittenAsReadsBack` | src/lunaApi/telegrafController.cpp:220 | An overlay written by `writeTomlSection` in any order reads back as its section |
| `TelegrafController.WriteMissingOverlays` | src/lunaApi/telegrafController.cpp:208-222 | The loop leaves the main file alone, writes the overlay of each registered main section that had none, and creates no other file |
| `TelegrafController.OverlaysWrittenSkip` | src/lunaApi/telegrafController.cpp:210-216 | Visiting a section that already has an overlay, or is not registered, keeps what has been written |
| `TelegrafController.OverlaysWrittenAdd` | src/lunaApi/telegrafController.cpp:216-221 | Writing the overlay of a registered section that had none extends what has been written by exactly that file |
| `TelegrafController.WriteOverlayStep` | src/lunaApi/telegrafController.cpp:210-222 | One turn of the split loop keeps the main file and extends the written overlays by that section |
| `TelegrafController.WriteMissingOverlay` | src/lunaApi/telegrafController.cpp:210-222 | The same turn for the section taken from those still to visit |
| `TelegrafController.Controller.SplitMainConfig` | src/lunaApi/telegrafController.cpp:204-229 | The overlays are written as above, then the main file goes through `disableTomlSection`; the registry, sidecar and pid are unchanged |
| `TelegrafController.SplitKeepsOverlaidSection` | src/lunaApi/telegrafController.cpp:204-229 | After the split, the assembled configuration still holds each overlaid section's main-file contents, whatever `disableTomlSection` did |
| `TelegrafController.Controller.constructor` | src/lunaApi/telegrafController.cpp:56-60 | The main file is split against the default registry before the manifest is loaded, and the pid starts at -1 |
| `TelegrafController.Controller.ReadWebOSConfigJson` | src/lunaApi/telegrafController.cpp:167-191 | The sidecar's document is returned, and a missing sidecar is created as `{}` |
| `TelegrafController.WithWebOSFlags` | src/lunaApi/telegrafController.cpp:130-163 | `loadConfig`'s flags: each `enabled` becomes `"true"` or `"false"` only where the sidecar has it, and an enabled process monitor gets its process list (`WebOSFlagsOnlyWhereSet`, `WebOSFlagsKeepOthers`, `WebProcessSizeFlag`) |
| `TelegrafController.WebOSFlagsOnlyWhereSet` | src/lunaApi/telegrafController.cpp:131-163 | The sidecar overrides the `enabled` flags (as `"true"`/`"false"`) and `process_name` only where it has them; every other section and parameter is as the files say |
| `TelegrafController.WebOSFlagsKeepOthers` | src/lunaApi/telegrafController.cpp:131-163 | Every parameter the sidecar does not name is left as the files have it |
| `TelegrafController.WebProcessSizeFlag` | src/lunaApi/telegrafController.cpp:131-139 | When the sidecar has the flag, `webProcessSize`'s `enabled` is `"true"` exactly when the flag is true; without it, the section is present exactly when the files have it |
| `TelegrafController.ProcessListExample` | src/lunaApi/telegrafController.cpp:148-161 | `process_name` renders as `["a", "b"]`, and a non-array as `[]` |
| `TelegrafController.RenderProcessList` | src/lunaApi/telegrafController.cpp:148-161 | The loop and the two pops produce the quoted, comma-separated list in brackets |
| `TelegrafController.Controller.LoadConfig` | src/lunaApi/telegrafController.cpp:122-165 | `_allConfig` is the assembled configuration with the sidecar's flags applied when the main file exists; the registry, files and pid are unchanged |
| `TelegrafController.Controller.GetConfig` | src/lunaApi/telegrafController.cpp:344-348 | A reload, then `_allConfig` is returned |
| `TelegrafController.Controller.IsRunning` | src/lunaApi/telegrafController.cpp:323-342 | Running exactly when the pid is positive and the liveness probe succeeds; never for a pid `<= 0` |
| `TelegrafController.Controller.Start` | src/lunaApi/telegrafController.cpp:251-291 | Spawns only when not running; the start time and the configuration are renewed only on a successful spawn; the files and registry are unchanged |
| `TelegrafController.Controller.Stop` | src/lunaApi/telegrafController.cpp:293-315 | A no-op for a pid `<= 0`; the pid becomes -1 only when `kill` succeeds |
| `TelegrafController.Controller.Restart` | src/lunaApi/telegrafController.cpp:317-321 | Exactly the composition of `stop` and `start` |
| `TelegrafController.ReapChildren` | src/lunaApi/telegrafController.cpp:233-237 | The `waitpid` loop clears the tracked pid exactly when it is among the reaped children |
| `TelegrafController.Reaped` | src/lunaApi/telegrafController.cpp:233-237 | The reaped pids are all positive |
| `TelegrafController.ReapedPrefix` | src/lunaApi/telegrafController.cpp:233-237 | The reaped pids are exactly the `waitpid` results before the first non-positive one |
| `TelegrafController.Controller.TerminationHandler` | src/lunaApi/telegrafController.cpp:231-238 | The pid is cleared only when the reaped pid equals it; a pid `<= 0` is never changed |
| `TelegrafController.SectionUpdate` | src/lunaApi/telegrafController.cpp:359-371 | A section after `updateSectionConfig` of a request: the old parameters overridden by the requested ones, or empty for an empty request (`SectionUpdateMerges`) |
| `TelegrafController.SectionUpdateMerges` | src/lunaApi/telegrafController.cpp:359-371 | In a section update the requested keys win and every other old key survives; an empty request clears the section |
| `TelegrafController.MergeSection` | src/lunaApi/telegrafController.cpp:366-369 | The merge loop gives the old section overridden by the requested keys |
| `TelegrafController.MakeSectionJson` | src/lunaApi/telegrafController.cpp:422-426 | Putting the parameters one by one into a fresh object gives the sidecar section, each value converted by `stringToJValue` |
| `TelegrafController.Controller.UpdateSectionConfig` | src/lunaApi/telegrafController.cpp:350-373 | `webOS.` and unregistered sections write nothing; otherwise only the section's overlay is rewritten, with the merged (or emptied) section; always true |
| `TelegrafController.WriteSectionUpdate` | src/lunaApi/telegrafController.cpp:350-373 | Non-overlaid sections leave the files unchanged; an overlaid one rewrites only its overlay; always true |
| `TelegrafController.RunningNamesExact` | src/lunaApi/telegrafController.cpp:389-397 | A name is listed exactly when the array has it and `pgrep` finds it running |
| `TelegrafController.ProcessPattern` | src/lunaApi/telegrafController.cpp:387-401 | The loop and the pop give the running names joined by `|`, in input order, with no trailing `|` |
| `TelegrafController.RunningNames` | src/lunaApi/telegrafController.cpp:389-397 | The running names are no more than the requested ones |
| `TelegrafController.PatternListsRunningNames` | src/lunaApi/telegrafController.cpp:391-405 | Splitting the pattern at `|` gives back the running names, when none holds a `|` |
| `TelegrafController.ProcstatFile` | src/lunaApi/telegrafController.cpp:381-412 | The procstat file after `updateProcstatConfig`: present, with the running names joined by `|` as its pattern, exactly when monitoring is enabled with a name array and some name runs (`PatternListsRunningNames`) |
| `TelegrafController.Controller.UpdateProcstatConfig` | src/lunaApi/telegrafController.cpp:381-412 | The procstat file holds the pattern of running names when monitoring is enabled with an array and some name runs; otherwise it is removed |
| `TelegrafController.ReplaceWebOSSections` | src/lunaApi/telegrafController.cpp:418-428 | The sidecar after `updateWebOSConfig`: each `webOS.*` input section replaces the sidecar's section, others are kept (`PutWebOSSections`, `ReplaceFromMembers`) |
| `TelegrafController.PutWebOSSections` | src/lunaApi/telegrafController.cpp:418-428 | Every `webOS.*` input section replaces the sidecar's section entirely; other input sections are ignored and other sidecar sections are kept |
| `TelegrafController.ReplaceFromMembers` | src/lunaApi/telegrafController.cpp:418-428 | An object that agrees member by member with the updated sidecar is that sidecar |
| `TelegrafController.Controller.UpdateWebOSConfig` | src/lunaApi/telegrafController.cpp:414-432 | The sidecar becomes the document with its `webOS.*` sections replaced, and the procstat file follows the new document |
| `TelegrafController.WriteSectionUpdates` | src/lunaApi/telegrafController.cpp:436-439 | Each requested overlaid section's overlay holds its merged section, and no other file changes |
| `TelegrafController.UpdateStep` | src/lunaApi/telegrafController.cpp:436-439 | One turn of the update loop extends the merged overlays by that section |
| `TelegrafController.Controller.UpdateConfig` | src/lunaApi/telegrafController.cpp:434-443 | Every requested overlay is merged, the sidecar's `webOS.*` sections are replaced, the procstat file follows, no other file changes, and the result is always true |
| `ThreadForInterval.StringToPositiveInt` | src/lunaApi/threadForInterval.cpp:107-129 | The result is an `int`: -1 when no number starts the text, -2 when the number read does not fit an `int` (negative or positive), and otherwise the number read |
| `ThreadForInterval.StringToPositiveIntDecimal` | src/lunaApi/threadForInterval.cpp:107-122 | A decimal pid reads back as itself, and one beyond the `int` range gives -2 |
| `ThreadForInterval.StringToPositiveIntInvalid` | src/lunaApi/threadForInterval.cpp:114-117 | Text that starts with no number gives -1 |
| `ThreadForInterval.NeedUpdate` | src/lunaApi/threadForInterval.cpp:286-300 | `needUpdateTelegrafAgentInterval`: always without a known interval, otherwise whether the token after `"; "` holds an `s`; its `requires` is where `substr` would throw (`NeedUpdateToken`) |
| `ThreadForInterval.NeedUpdateToken` | src/lunaApi/threadForInterval.cpp:286-300 | With an interval known, an update is due exactly when the token after `"; "` up to the next space holds an `s` |
| `ThreadForInterval.NeedUpdateExamples` | src/lunaApi/threadForInterval.cpp:288-299 | `…; 2s ago` is due, `…; 3min ago` is not, and with no interval known the answer is always true |
| `ThreadForInterval.IntervalFieldOf` | src/lunaApi/threadForInterval.cpp:307-309 | The field parsed is the text after the first `Interval:` up to the next `,` |
| `ThreadForInterval.UnitValueAfter` | src/lunaApi/threadForInterval.cpp:321-335 | The number before a unit letter is read back, and reading continues after the letter |
| `ThreadForInterval.UnitsOfHms` | src/lunaApi/threadForInterval.cpp:318-337 | `Ns`, `MmNs` and `HhMmNs` are worth `N`, `60M + N` and `3600H + 60M + N` seconds |
| `ThreadForInterval.HmsHaveNoMs` | src/lunaApi/threadForInterval.cpp:313-317 | Those fields hold no `ms`, so they do not take the sub-second path |
| `ThreadForInterval.DurationSecondsOfMs` | src/lunaApi/threadForInterval.cpp:313-337 | A sub-second field gives 1, whatever the milliseconds |
| `ThreadForInterval.DurationSecondsOfHours` | src/lunaApi/threadForInterval.cpp:318-337 | A field of hours alone, such as `2h`, reads as 3600 seconds per hour |
| `ThreadForInterval.DurationSecondsOf` | src/lunaApi/threadForInterval.cpp:311-339 | `Ns`, `MmNs` and `HhMmNs` read as `N`, `60M + N` and `3600H + 60M + N` seconds, and `Nms` reads as 1 |
| `ThreadForInterval.GetTelegrafAgentInterval` | src/lunaApi/threadForInterval.cpp:302-343 | -1 for empty output, otherwise the seconds of the `Interval:` field: 1 for an `ms` part, plus 3600 per hour, 60 per minute and the seconds (`GetTelegrafAgentIntervalAtHead`, `DurationSecondsOf`, `UnitsOfHms`) |
| `ThreadForInterval.GetTelegrafAgentIntervalAtHead` | src/lunaApi/threadForInterval.cpp:302-343 | Empty command output gives -1, and `Interval:1m30s,…` gives 90 |
| `ThreadForInterval.CpuUsage` | src/lunaApi/threadForInterval.cpp:133-160 | `interval_cpu_usage` on the pid-to-time cache: `"0"` and a stored time on first sighting, the usage since the stored time otherwise (`CpuUsageCache`) |
| `ThreadForInterval.CpuUsageCache` | src/lunaApi/threadForInterval.cpp:143-159 | The first sighting of a pid stores its time and reads `"0"`; later sightings overwrite the latest time; no entry is ever removed |
| `ThreadForInterval.Sampler.IntervalCpuUsage` | src/lunaApi/threadForInterval.cpp:134-160 | The cache of the sampler changes as `CpuUsage` says, keyed by the number the pid parses to |
| `ThreadForInterval.MonitorOne` | src/lunaApi/threadForInterval.cpp:163-196 | An empty or negative pid sends nothing and keeps the cache; otherwise exactly one line is sent, starting `processMonitoring,processName=<n>,pid=<p> interval_cpu_usage=` |
| `ThreadForInterval.Sampler.CalculateProcessMonitoring` | src/lunaApi/threadForInterval.cpp:163-196 | The sampler's cache and sent lines change as `Monitor` says |
| `ThreadForInterval.MonitorAllSends` | src/lunaApi/threadForInterval.cpp:163-196 | Sampling a sequence of targets sends one line per target that passes the guard, after the lines sent before, and forgets no pid |
| `ThreadForInterval.MonitorAllAppend` | src/lunaApi/threadForInterval.cpp:163-196 | Sampling two target sequences in turn is sampling their concatenation |
| `ThreadForInterval.WebProcessSizeLinesCount` | src/lunaApi/threadForInterval.cpp:49-64 | One line is sent per (web process, running app) pair |
| `ThreadForInterval.WebProcessSizeLinesForm` | src/lunaApi/threadForInterval.cpp:52-61 | Every line is `webProcessSize,webId=<id>,pid=<pid> webProcessSize=<size without its last 2 chars>` for some process and one of its apps |
| `ThreadForInterval.AppLines` | src/lunaApi/threadForInterval.cpp:55-63 | One line per running application of a web process |
| `ThreadForInterval.AppendAppLines` | src/lunaApi/threadForInterval.cpp:56-63 | The inner loop appends exactly the application lines |
| `ThreadForInterval.CollectWebProcessSizes` | src/lunaApi/threadForInterval.cpp:49-64 | The two loops send exactly `WebProcessSizeLines` of the web processes |
| `ThreadForInterval.Sampler.CbGetWebProcessSize` | src/lunaApi/threadForInterval.cpp:40-67 | False and nothing sent when `returnValue` is not true; otherwise true and the web-process lines are appended |
| `ThreadForInterval.ResolvedNameFirst` | src/lunaApi/threadForInterval.cpp:214-226 | A `WebAppMgr` process is named by the `id` of the first running entry whose `webprocessid` equals its pid |
| `ThreadForInterval.ResolvedNameKept` | src/lunaApi/threadForInterval.cpp:213-228 | Every other process, and a `WebAppMgr` one no entry lists, keeps its exe path as its name |
| `ThreadForInterval.LinkTarget` | src/lunaApi/threadForInterval.cpp:209-213 | `readlink` into a fixed buffer gives a prefix of the target, at most the buffer's length |
| `ThreadForInterval.FindWebProcessName` | src/lunaApi/threadForInterval.cpp:216-226 | The inner loop finds the name `ResolvedName` gives |
| `ThreadForInterval.ProcTargetsMembers` | src/lunaApi/threadForInterval.cpp:204-229 | A target comes from a `/proc` entry whose name is all digits and whose exe link reads, and every such entry gives one |
| `ThreadForInterval.Sampler.MonitoringAllProcesses` | src/lunaApi/threadForInterval.cpp:198-233 | Every sampled `/proc` entry is monitored under its resolved name |
| `ThreadForInterval.NameIndex` | src/lunaApi/threadForInterval.cpp:260-269 | The index found is the first requested name equal to the app id, or none when no name equals it |
| `ThreadForInterval.FirstNameIndex` | src/lunaApi/threadForInterval.cpp:260-269 | The inner loop of `cb_getRunningProcess` finds `NameIndex` |
| `ThreadForInterval.Consume` | src/lunaApi/threadForInterval.cpp:255-271 | The matching loop of `cb_getRunningProcess`: each running app takes the first remaining requested name equal to its id, giving one target, and the name is removed (`ConsumeConserves`, `NamesRemove`) |
| `ThreadForInterval.ConsumeConserves` | src/lunaApi/threadForInterval.cpp:256-271 | Each requested name is taken by at most one running app: the names taken plus the names left are the requested ones as a multiset, and there are no more targets than apps |
| `ThreadForInterval.NamesRemove` | src/lunaApi/threadForInterval.cpp:266 | Erasing one name keeps every other name, as a multiset |
| `ThreadForInterval.Sampler.MonitorMatched` | src/lunaApi/threadForInterval.cpp:255-271 | Each running app removes the first equal remaining name and is monitored under its id |
| `ThreadForInterval.Leftovers` | src/lunaApi/threadForInterval.cpp:272-278 | One target per leftover name |
| `ThreadForInterval.Sampler.MonitorLeftovers` | src/lunaApi/threadForInterval.cpp:272-278 | The leftover names are monitored in order, with the pid the `ps` lookup prints |
| `ThreadForInterval.Sampler.CbGetRunningProcess` | src/lunaApi/threadForInterval.cpp:235-284 | False and nothing sent unless `returnValue` is true and `process_name` is an array; all processes exactly when the list is `["."]`; otherwise the matched names, then the leftovers |
| `ThreadForInterval.Step` | src/lunaApi/threadForInterval.cpp:355-413 | One pass of `intervalHandle_process` after the stop check: idle while inactive, the interval re-read when due, the calls fired at countdown 1, else a decrement (`StepInactive`, `StepRetimed`, `SteadyStep`) |
| `ThreadForInterval.StepInactive` | src/lunaApi/threadForInterval.cpp:355-356 | A pass while the collector is not active changes nothing and calls nothing |
| `ThreadForInterval.StepRetimed` | src/lunaApi/threadForInterval.cpp:358-371 | A changed interval resets the countdown to 1, so the two sampling calls fire at once and the countdown restarts at the new interval |
| `ThreadForInterval.SteadyStep` | src/lunaApi/threadForInterval.cpp:368-412 | With a steady interval the two sampling calls fire when the countdown is at 1 and otherwise it counts down |
| `ThreadForInterval.Sampler.Pass` | src/lunaApi/threadForInterval.cpp:355-412 | One pass after the stop check moves the countdown and the interval as `Step` says |
| `ThreadForInterval.Run` | src/lunaApi/threadForInterval.cpp:348-416 | The loop of `intervalHandle_process`: one pass per tick up to the first stop message (`RunStops`, `RunAdvance`, `Periodic`) |
| `ThreadForInterval.RunStops` | src/lunaApi/threadForInterval.cpp:349-353 | The loop makes one pass for each tick before the first stop message and no more, because the stop is checked only at the top |
| `ThreadForInterval.RunOkAt` | src/lunaApi/threadForInterval.cpp:349-412 | A pass that does not stop handles its strings without failing |
| `ThreadForInterval.RunAdvance` | src/lunaApi/threadForInterval.cpp:349-416 | The passes from one tick on are that tick's pass followed by the passes after it |
| `ThreadForInterval.RunDone` | src/lunaApi/threadForInterval.cpp:349-353 | No pass is made at the end of the ticks or at a stop message |
| `ThreadForInterval.Periodic` | src/lunaApi/threadForInterval.cpp:348-416 | With a steady interval N of at least 1, the two sampling calls fire on exactly every N-th active pass, counted from the starting countdown |
| `ThreadForInterval.EveryNthCons` | src/lunaApi/threadForInterval.cpp:368-412 | Firing on every N-th pass extends by one pass that fires exactly when the countdown is at 1 |
| `ThreadForInterval.PhaseFirst` | src/lunaApi/threadForInterval.cpp:368-370 | The first pass fires exactly when the countdown is at 1 |
| `ThreadForInterval.PhaseStep` | src/lunaApi/threadForInterval.cpp:368-412 | Each later pass's phase is the previous count's phase, one step on |
| `ThreadForInterval.Sampler.IntervalProcess` | src/lunaApi/threadForInterval.cpp:345-419 | The loop from `intervalCountDown = 1` leaves the interval and makes the calls that `Run` gives for the tick sequence |
| `ThreadForInterval.Sampler.constructor` | src/lunaApi/threadForInterval.cpp:131-133 | The globals start with interval 0, no cached CPU time and no line sent |
| `CollectorApi.LTrim` | src/lunaApi/lunaApiCollector.cpp:61-66 | `ltrim` removes exactly the leading run of `" \t\n\r\f\v"` characters: the result is a suffix, starts with no such character, and everything removed is one |
| `CollectorApi.RTrim` | src/lunaApi/lunaApiCollector.cpp:67-72 | `rtrim` removes exactly the trailing run of those characters: the result is a prefix, ends with no such character, and everything removed is one |
| `CollectorApi.Trim` | src/lunaApi/lunaApiCollector.cpp:73-77 | `trim` is `ltrim` of `rtrim`: a slice with neither end trimmable and only trimmable characters around it (`TrimSlice`, `TrimIdempotent`) |
| `CollectorApi.TrimSlice` | src/lunaApi/lunaApiCollector.cpp:61-77 | The trim is a slice of the text, has no `" \t\n\r\f\v"` character at either end, and only such characters are dropped around it |
| `CollectorApi.TrimOfTrimmed` | src/lunaApi/lunaApiCollector.cpp:61-77 | A text with no trimmed character at either end is its own trim |
| `CollectorApi.TrimIdempotent` | src/lunaApi/lunaApiCollector.cpp:74-77 | Trimming twice is trimming once |
| `CollectorApi.TrimPadded` | src/lunaApi/lunaApiCollector.cpp:61-77 | Padding of trimmed characters on both sides of a trimmed text is removed exactly |
| `CollectorApi.FindAllowedKey` | src/lunaApi/lunaApiCollector.cpp:176-183 | The loop finds whether some allowed key equals the key, ignoring case |
| `CollectorApi.CheckParams` | src/lunaApi/lunaApiCollector.cpp:167-199 | The check passes if and only if the payload is non-empty, every section is available and every key matches an allowed key |
| `CollectorApi.KeyAllowedIgnoresCase` | src/lunaApi/lunaApiCollector.cpp:179 | Keys that differ only in letter case are both allowed or both refused |
| `CollectorApi.ValidParamsRejects` | src/lunaApi/lunaApiCollector.cpp:168-198 | An empty payload, an unavailable section, or a key matching no allowed key is rejected |
| `CollectorApi.StripBrackets` | src/lunaApi/lunaApiCollector.cpp:241-242 | No bracket is left after the two removals |
| `CollectorApi.StripBracketsOf` | src/lunaApi/lunaApiCollector.cpp:241-242 | `[name]` and `[[name]]` both become `name` |
| `CollectorApi.StripBracketsWrapped` | src/lunaApi/lunaApiCollector.cpp:241-242 | A pair of brackets around a text goes with the text's own brackets |
| `CollectorApi.Pieces` | src/lunaApi/lunaApiCollector.cpp:393-416 | A split always gives at least one piece |
| `CollectorApi.PiecesJoin` | src/lunaApi/lunaApiCollector.cpp:393-416 | Joining the pieces of a split with the separator gives the text back |
| `CollectorApi.PiecesHaveNoSeparator` | src/lunaApi/lunaApiCollector.cpp:393-416 | No piece holds the separator |
| `CollectorApi.RewriteLineCases` | src/lunaApi/lunaApiCollector.cpp:220-272 | An empty line writes `"\n"`, an all-space line writes nothing, a comment is copied, a requested key inside a requested section is dropped, and other lines are copied |
| `CollectorApi.FirstNonBlank` | src/lunaApi/lunaApiCollector.cpp:225-227 | The scan finds the first character that is not a space, or none |
| `CollectorApi.HeaderLine` | src/lunaApi/lunaApiCollector.cpp:232-256 | A header is copied, retires the section it closes, and opens a requested section with its new `  key = value` lines right after it |
| `CollectorApi.RemoveSection` | src/lunaApi/lunaApiCollector.cpp:236-239 | `remove` drops exactly the members of that section name |
| `CollectorApi.WriteKeyLines` | src/lunaApi/lunaApiCollector.cpp:245-251 | The member loop writes one `  key = value` line per member, in order |
| `CollectorApi.RewriteOne` | src/lunaApi/lunaApiCollector.cpp:221-273 | One pass of the reading loop is `RewriteLine` |
| `CollectorApi.WritePendingSections` | src/lunaApi/lunaApiCollector.cpp:275-291 | The sections still pending are appended, `[name]` for `global_tags` and `agent` and `[[name]]` otherwise |
| `CollectorApi.PendingSectionsHas` | src/lunaApi/lunaApiCollector.cpp:275-291 | Every pending section is written at the end with its header and members |
| `CollectorApi.RewriteLines` | src/lunaApi/lunaApiCollector.cpp:218-272 | The rewriter's loop over the lines of `telegraf.conf`, one `RewriteLine` per line, with the pending sections and the text written (`RewriteOne`, `RewriteLinesKeeps`, `SectionRetiredAtNextHeader`) |
| `CollectorApi.RewriteConfig` | src/lunaApi/lunaApiCollector.cpp:218-291 | The rewrite of `telegraf.conf` lines is `Rewritten`: the lines rewritten in turn, then the pending sections |
| `CollectorApi.RewriteLinesSubset` | src/lunaApi/lunaApiCollector.cpp:236-239 | The sections left pending all come from the payload |
| `CollectorApi.RewriteLinesKeeps` | src/lunaApi/lunaApiCollector.cpp:232-256 | A requested section whose header does not appear stays pending |
| `CollectorApi.UnheadedSectionAppended` | src/lunaApi/lunaApiCollector.cpp:275-291 | A requested section whose header the file lacks is appended with its members |
| `CollectorApi.LastSectionTwice` | src/lunaApi/lunaApiCollector.cpp:236-291 | A requested section with the file's last header is written twice, under that header and at the end |
| `CollectorApi.SectionRetiredAtNextHeader` | src/lunaApi/lunaApiCollector.cpp:236-239 | A requested section followed by another header is retired and not written again |
| `CollectorApi.SetConfig` | src/lunaApi/lunaApiCollector.cpp:158-317 | Invalid parameters change nothing; a missing `telegraf.conf` leaves an empty temporary file; otherwise the rewrite is moved over `telegraf.conf` unless `telegraf -test` reports an error, in which case it stays in the temporary file |
| `CollectorApi.ConvertEquals` | src/lunaApi/lunaApiCollector.cpp:361-369 | Every `=` outside double quotes becomes `:`; nothing else changes |
| `CollectorApi.ReplaceEqualsOutsideQuotes` | src/lunaApi/lunaApiCollector.cpp:361-369 | The quote-counting loop computes `ConvertEquals` |
| `CollectorApi.ReadOne` | src/lunaApi/lunaApiCollector.cpp:342-377 | One pass of the reading loop is `ConfigLine` |
| `CollectorApi.GetConfig` | src/lunaApi/lunaApiCollector.cpp:319-386 | A missing `telegraf.conf` is the errorCode 5 reply; otherwise the reply holds `ReadConfig` of its lines |
| `CollectorApi.ConfigLineSkips` | src/lunaApi/lunaApiCollector.cpp:342-346 | Comments and lines of spaces change nothing |
| `CollectorApi.ConfigLineHeader` | src/lunaApi/lunaApiCollector.cpp:347-353 | A header starts an empty section named by its bracket-stripped, trimmed text |
| `CollectorApi.ConfigLineOther` | src/lunaApi/lunaApiCollector.cpp:354-375 | A line without `=` is skipped; any other line keeps the section and the set of sections |
| `CollectorApi.ReadConfig` | src/lunaApi/lunaApiCollector.cpp:339-378 | The configuration `getConfig` reads from the lines, one `ConfigLine` per line, starting with no section (`ReadConfigSections`, `ConfigLineSets`) |
| `CollectorApi.ReadConfigSections` | src/lunaApi/lunaApiCollector.cpp:341-378 | The sections of the reply are exactly the header names of the file |
| `CollectorApi.ConfigLinesSections` | src/lunaApi/lunaApiCollector.cpp:341-378 | The sections after reading are those before plus the header names read |
| `CollectorApi.ConfigLineSets` | src/lunaApi/lunaApiCollector.cpp:361-375 | A key line sets the trimmed text before the first unquoted `=` to the trimmed rest |
| `CollectorApi.ReadsKeyLine` | src/lunaApi/lunaApiCollector.cpp:361-374 | A line `  key = value`, as the rewriter writes it, reads back as that key and value |
| `CollectorApi.DivideFrom` | src/lunaApi/lunaApiCollector.cpp:399-410 | The divider is the first unquoted `=` of the piece, or its length |
| `CollectorApi.FindDivider` | src/lunaApi/lunaApiCollector.cpp:399-410 | The quote-counting loop finds `DivideFrom` |
| `CollectorApi.PutPiece` | src/lunaApi/lunaApiCollector.cpp:411 | The piece's key is set to its value |
| `CollectorApi.ConvertStep` | src/lunaApi/lunaApiCollector.cpp:393-416 | One turn of the loop puts the piece up to the next comma and keeps the object equal to the pieces put so far |
| `CollectorApi.DataToJson` | src/lunaApi/lunaApiCollector.cpp:388-418 | `convertDataToJson`: the pieces between `,` put in order, the key before the first unquoted `=` set to the value after it (`PutPiecesKeys`, `PutPiecesLastWins`, `DataToJsonPair`) |
| `CollectorApi.ConvertDataToJson` | src/lunaApi/lunaApiCollector.cpp:388-418 | The loop splits at every `,` (quotes ignored) and puts each piece's key and value, giving `DataToJson` |
| `CollectorApi.PutPiecesKeys` | src/lunaApi/lunaApiCollector.cpp:411 | The keys of the object are the keys of the pieces |
| `CollectorApi.PutPiecesLastWins` | src/lunaApi/lunaApiCollector.cpp:411 | A key holds the value of the last piece that names it |
| `CollectorApi.DataToJsonPair` | src/lunaApi/lunaApiCollector.cpp:388-418 | One comma-free `key=value` converts to the one-member object |
| `CollectorApi.DataCommand` | src/lunaApi/lunaApiCollector.cpp:427-441 | The `telegraf -test` command, with an input filter of the inputs joined by `:` for a payload with members (`InputFilterRoundTrip`, `EmptyInputFilter`, `PlainTestCommand`) |
| `CollectorApi.BuildDataCommand` | src/lunaApi/lunaApiCollector.cpp:427-441 | The loop builds `DataCommand`: the inputs joined by `:` after `--input-filter` when the payload has members |
| `CollectorApi.AppendInput` | src/lunaApi/lunaApiCollector.cpp:432-438 | One turn of the loop appends the input's name, with `:` before any later one |
| `CollectorApi.InputFilterRoundTrip` | src/lunaApi/lunaApiCollector.cpp:429-441 | The filter lists the inputs with no trailing `:`, and splitting it at `:` gives them back |
| `CollectorApi.EmptyInputFilter` | src/lunaApi/lunaApiCollector.cpp:429-441 | A payload with members but no `inputs` gets an empty filter |
| `CollectorApi.PlainTestCommand` | src/lunaApi/lunaApiCollector.cpp:427-441 | An empty payload gives the command without a filter |
| `CollectorApi.RFindChar` | src/lunaApi/lunaApiCollector.cpp:471 | `rfind` gives the last occurrence, or none |
| `CollectorApi.HeaderCut` | src/lunaApi/lunaApiCollector.cpp:466-469 | A record's title runs to its first `,`, and the tags follow it |
| `CollectorApi.RecordCutBeforeLast` | src/lunaApi/lunaApiCollector.cpp:466-475 | A record `title,tags fields time` followed by one non-space character is cut into its title, tags, fields and time; the `(length-1)-(timeIndex+1)` count drops that last character |
| `CollectorApi.RecordOfLine` | src/lunaApi/lunaApiCollector.cpp:466-475 | A line-protocol record `title,tags fields time` that ends in a newline is cut into its title, tags, fields and time, with the newline dropped |
| `CollectorApi.RecordOfUnterminatedLine` | src/lunaApi/lunaApiCollector.cpp:466-475 | A record without a final newline, which is what the newline-stripping `executeCommand` delivers, keeps its title, tags and fields, but its time loses its last character |
| `CollectorApi.ParseRecord` | src/lunaApi/lunaApiCollector.cpp:465-478 | The loop body builds the record's object |
| `CollectorApi.AppendRecord` | src/lunaApi/lunaApiCollector.cpp:464-479 | A non-empty record is parsed and appended, an empty one skipped |
| `CollectorApi.RecordsStep` | src/lunaApi/lunaApiCollector.cpp:457-484 | One turn of the loop keeps the reply array equal to the records cut so far |
| `CollectorApi.SplitRecords` | src/lunaApi/lunaApiCollector.cpp:457-484 | The loop gives one object per non-empty record, in order |
| `CollectorApi.DataItemsShape` | src/lunaApi/lunaApiCollector.cpp:457-484 | Each object has exactly one member; there is at most one object per record, and exactly one when no record is empty |
| `CollectorApi.TestRestCases` | src/lunaApi/lunaApiCollector.cpp:456 | When the first `"> "` is not at the start, the output is kept from there on and its first record piece is empty; when it is at the start, only the last character is dropped |
| `CollectorApi.TestData` | src/lunaApi/lunaApiCollector.cpp:444-490 | The `getData` reply for an output: errorCode 4 on `E! [telegraf] Error`, otherwise one object per non-empty record after the first `"> "` (`SplitRecords`, `DataItemsShape`, `TestRestCases`) |
| `CollectorApi.ParseOutput` | src/lunaApi/lunaApiCollector.cpp:444-490 | Output containing `E! [telegraf] Error` is the errorCode 4 reply; otherwise the reply holds the record objects |
| `CollectorApi.GetData` | src/lunaApi/lunaApiCollector.cpp:420-491 | The reply is `TestData` of what the built command prints |

## Left out

- JSON text: parsing and stringifying (json-c, pbnjson) are library calls. Documents appear
  already parsed (`JsonValue.JValue`). The JSON text of a value is kept as raw text (the
  registry's manifest elements, `stringify()` in the rewriter, `stringToJValue` as the
  parameter `toJson`). `jsonStringToTomlObject` is left out for the same reason, except its
  `toStringArr` and `fixDoubleForwardSlash`.
- The `BadJSON` replies of every Luna handler, and `strerror(errno)` in the error texts: they
  depend on the JSON parser and on `errno`.
- `executeCommand`, `popen`, `systemctl`, `pgrep`, `ps`, `sed`, `telegraf -test`, `mv`,
  `rm`, `echo`, `posix_spawn`, `kill`, `waitpid`, `signal`, `opendir` and `readlink` become
  parameters holding their results (`test`, `run`, `running`, `alive`, `spawn`, `killOk`,
  `results`, `env`).
- The `start`, `stop`, `restart`, `startOnBoot` and `getStatus` handlers of
  `lunaApiCollector`: each only runs one `systemctl` command and replies.
- Threads: the interval thread's queue, `g_usleep`, the socket thread that carries the sent
  lines, thread creation and join, and the mutexes. The sampler's sent lines are a sequence
  field instead.
- Floating point: `stringToFloat`, the CPU-usage division and its `setprecision(2)` text are
  the parameter `usage`. CPU times are integers.
- `disableTomlSection` is not part of this model. Its effect on the main file is the abstract
  parameter `disable`.
- The destructor (its inverted guard makes its `stop()` a no-op), the singletons,
  `getRunningTelegrafPID`, `elapsedFromLastStartedTime`, logging and `main`.
- The trim helpers of `lunaApiCollector` change their argument in place; they are modelled as
  functions returning the new text. `trim_string` keeps its loops.
- Preconditions stand where the source would throw rather than return.
  - `readTomlFile` on a header without a name: `substr` out of range.
  - `loadConfig` with an empty `process_name` array: `at(length - 2)` on `"["`.
  - `convertDataToJson` on a piece without `=`.
  - `getData` on output without `"> "`.
  - `cb_getWebProcessSize` on a size shorter than 2 characters.
  - `TrimStringRange` on indices beyond the text.
  - `needUpdateTelegrafAgentInterval` with an interval known, when `find(";") + 2` lies
    beyond the log: a log whose first `';'` is its last character, or an empty log (a
    missing `';'` wraps around to 1). This is the `requires` of
    `ThreadForInterval.NeedUpdate`.
  - `getTelegrafAgentInterval` on non-empty output without `"Interval:"`: the `requires`
    of `ThreadForInterval.GetTelegrafAgentInterval`.
  - Both of these reach the interval thread through `ThreadForInterval.TickOk`, which
    `Step`, `RunOk`, `Sampler.Pass` and `Sampler.IntervalProcess` require of every pass.
- `operator[]` on `tomlObject` creates missing entries. The model's writes always name
  existing or newly made sections, so no put is lost.
- `ThreadForInterval.UnitsSeconds`: `hour * 60 * 60`, `minute * 60` and their sum are C `int`
  arithmetic in `getTelegrafAgentInterval`. The model computes them on unbounded integers,
  so an interval whose seconds exceed the `int` range is not wrapped. `CppString.Atoi`
  likewise does not model the overflow of `atoi`.
- `ThreadForInterval.StringToPositiveInt`: the -3 for any other exception is never produced,
  because `std::stoi` raises only the two exceptions modelled.
- `TelegrafController.Controller.SplitMainConfig`: whether `disableTomlSection` succeeded is
  not modelled, only what it leaves in the main file.
- `ThreadForInterval.Sampler.IntervalProcess`: the passes are given as a finite sequence of
  ticks, so the model covers every finite prefix of the thread's run but not its
  non-termination.
