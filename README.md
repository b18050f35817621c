# opnsense-cli: endpoint catalog generator and raw/macro dispatch, in Dafny

This project models the core of `opnsense-cli`, a command-line client for the OPNsense
firewall API, and proves properties of the model.

The first part is the generator that builds the CLI's command catalog from the OPNsense
PHP sources. For each API controller file it:
- derives the controller facts: module, controller name, base class, abstractness and model file;
- cuts the body of every method between its header and the next;
- turns each `...Action` method into an endpoint, with its verb, type label and parameters;
- adds the default commands inherited from a well-known base class;
- sorts the endpoints by command.

The directory walk then groups the endpoint lists into modules. Each list becomes a
controller record with an optional `model` link into the GitHub repository.

The second part is the CLI side:
- the `raw` command builds one subcommand per entry of the commands file, with group
  dedupe, `Use` path, minimum argument count, help texts and API category;
- a subcommand's run composes the request URL and reads the key and secret from the
  secret file when needed;
- `macro run` runs every macro named by its first argument, command by command, each
  through the first `raw` subcommand of that name.

Modules:
- `Runtime`, `Text`, `PathUtil` (`text.dfy`, `paths.dfy`): Go's run outcomes and the parts
  of `strings` and `path/filepath` the code uses. A Go panic or `log.Fatal` is a `Failed`
  result carrying the kind of stop.
- `Endpoints` (`endpoints.dfy`): `parseAPIPHP`, `contains`, `findIndex`, `sourceURL` and the
  default-command table. Sorting is done in place on an array, as `sort.Slice` does.
- `Catalog` (`catalog.dfy`): the walk callback of `main`. Its module map is specified
  against the sequence of visits.
- `Templates` (`templates.dfy`): the controller records of one module and their `Uses`.
- `RawCli` (`raw.dfy`): the `raw` command as a class holding its groups and subcommands,
  plus URL composition and credential resolution.
- `MacroRun` (`macro_run.dfy`): `macro run`, specified by the sequence of subcommand runs it starts
  when every run returns.

Quirks of the code that the model keeps on purpose:
- The firmware exclusion never excludes anything (`Catalog.ExclusionNeverApplies`).
- On `/` paths the module key is the whole lowered grandparent directory (`Catalog.ModuleKeyIsGrandparent`).
- The camel-case "pattern" is replaced literally (`Endpoints.ControllerNameIsLoweredStem`).
- A repeated method header makes a body slice run backwards, and Go panics (`Endpoints.RepeatedHeaderPanics`).

Two properties one might expect of this code do not hold:
- Commands within a controller are unique only when the file does not define the same
  action twice. `Endpoints.UniqueCommands` proves uniqueness under exactly that condition.
- The sort is not stable. The model promises a sorted permutation and nothing about the
  order of equal commands.
- An abstract controller's inherited defaults are not marked abstract: they are `Service`
  endpoints like any other (`Endpoints.AbstractDefaultsAreService`).

## Model

| member | source | states |
|---|---|---|
| Endpoints.ControllerNameIsLoweredStem | generator/opnsense/collect_api_endpoints.go:106 | the literal replace changes nothing, so the controller name is the lowered base name before the first `Controller.php` |
| Endpoints.BaseClassOf | generator/opnsense/collect_api_endpoints.go:117-123 | "" without a class header; otherwise a `\`-free suffix of the first header's parent name that is preceded by `\` or is the whole name |
| Endpoints.IsAbstractClass | generator/opnsense/collect_api_endpoints.go:117-123 | abstract only when there is a class header, and then exactly when the first header's leading word is `abstract` |
| Endpoints.FactsSpec | generator/opnsense/collect_api_endpoints.go:103-137 | fails with an index panic when the path has fewer than three segments and with a slice panic when a model class is declared and it has fewer than five; otherwise the module name is the lowered third-last path segment (holding no `/`), the file name is the base name, and the controller, abstractness, base class and model file are those of the file |
| Endpoints.ModelClass | generator/opnsense/collect_api_endpoints.go:125-132 | the first model-class capture; only when there is none, the first service-class capture; none exactly when both are absent |
| Endpoints.ModelFilenameSpec | generator/opnsense/collect_api_endpoints.go:129-137 | the model file is non-empty exactly when a model (or, failing that, service) class is declared, the path has at least five segments and the descriptor path exists, and then it is that path with `//` collapsed; a declared class with fewer than five path segments is a slice panic |
| Endpoints.CommandOf | generator/opnsense/collect_api_endpoints.go:152-153 | the command followed by `Action` gives back the method name |
| Endpoints.ParametersSpec | generator/opnsense/collect_api_endpoints.go:154-157 | the parameters are the space-free text cut at every `,`, in order; the list is empty exactly when that text is empty or starts with `,`; no piece holds a space or comma |
| Endpoints.ParametersExample | generator/opnsense/collect_api_endpoints.go:154-157 | `"$a, $b"` gives `["$a", "$b"]`, keeping `$`; the empty text gives no parameters |
| Endpoints.TypeLabel | generator/opnsense/collect_api_endpoints.go:169-175 | `Abstract [non-callable]` iff abstract; `Service` iff not abstract and the controller contains `service`; `Resources` otherwise |
| Endpoints.FirstMatchWins | generator/opnsense/collect_api_endpoints.go:176-189 | the verb is that of the first rule whose marker occurs in the body, or the default when none occurs |
| Endpoints.VerbClassification | generator/opnsense/collect_api_endpoints.go:176-189 | POST iff a mutation marker occurs; `*` iff none does and `searchBase` occurs; GET iff neither |
| Endpoints.OccurrencesAdvance | generator/opnsense/collect_api_endpoints.go:144-151 | while the body slices stay in range, each header's first occurrence ends no later than where the next ones begin |
| Endpoints.RepeatedHeaderPanics | generator/opnsense/collect_api_endpoints.go:144-151 | any non-empty header text that appears again at a later header makes some body slice run backwards, so the file stops the generator |
| Endpoints.DuplicateHeaderPanics | generator/opnsense/collect_api_endpoints.go:144-151 | the smallest such file: header `h`, another header, then `h` again |
| Endpoints.ExplicitSpec | generator/opnsense/collect_api_endpoints.go:144-191 | each action header yields exactly one endpoint, in header order, built from its own body slice; other headers yield none |
| Endpoints.DefinedCommandsSpec | generator/opnsense/collect_api_endpoints.go:152-153 | `thisCommands` holds the command of each action header, in header order |
| Endpoints.MissingDefaultsSpec | generator/opnsense/collect_api_endpoints.go:194-209 | a table entry yields a default endpoint exactly when its command is not already defined; never more endpoints than entries |
| Endpoints.DefaultsSpec | generator/opnsense/collect_api_endpoints.go:193-210 | defaults are added only for a base class in the table, one for each entry whose command is not defined; an unknown base class adds none |
| Endpoints.AbstractDefaultsAreService | generator/opnsense/collect_api_endpoints.go:193-210 | every default endpoint is non-abstract and labelled `Service`, even for an abstract controller |
| Endpoints.AbstractModelControllerExample | generator/opnsense/collect_api_endpoints.go:193-210 | an abstract model controller defining nothing receives a first default that is non-abstract and labelled `Service` |
| Endpoints.ServiceDefaultsExample | generator/opnsense/collect_api_endpoints.go:45-71 | a mutable service controller defining only `status` receives start, stop, restart and reconfigure, as POST service endpoints, and no second `status` |
| Endpoints.DefaultCommandsFresh | generator/opnsense/collect_api_endpoints.go:193-210 | the added defaults have distinct commands, none of them already defined |
| Endpoints.UnsortedCommands | generator/opnsense/collect_api_endpoints.go:142-210 | the merged list's commands are the defined commands in file order followed by those of the added defaults |
| Endpoints.UniqueCommands | generator/opnsense/collect_api_endpoints.go:193-210 | when no action is defined twice, every command of the merged list is distinct: an explicit action suppresses the same-named default |
| Endpoints.FindIndex | generator/opnsense/collect_api_endpoints.go:227-234 | returns the first index holding the value, or -1 when it is absent |
| Endpoints.ContainsString | generator/opnsense/collect_api_endpoints.go:236-243 | true exactly when the value is an element |
| Endpoints.ShiftLarger | generator/opnsense/collect_api_endpoints.go:212-214 | the inner loop of an insertion step: the elements with a larger command move one place right, in order, the rest stay, and the free place follows the last smaller-or-equal command |
| Endpoints.InsertLast | generator/opnsense/collect_api_endpoints.go:212-214 | one insertion step: the prefix through `i` becomes sorted by command, the elements are a permutation, the rest is untouched |
| Endpoints.SortByCommand | generator/opnsense/collect_api_endpoints.go:212-214 | the array ends nondecreasing by command and holds the same endpoints |
| Endpoints.CollectAction | generator/opnsense/collect_api_endpoints.go:145-190 | one pass of the header loop: it fails exactly when this header's body slice runs backwards, and otherwise extends the endpoints and `thisCommands` by this header |
| Endpoints.CollectActions | generator/opnsense/collect_api_endpoints.go:144-192 | succeeds exactly when every body slice is in range, and then returns the action endpoints and `thisCommands` in header order |
| Endpoints.AppendDefaults | generator/opnsense/collect_api_endpoints.go:193-210 | appends exactly the missing defaults of the base class, in table order |
| Endpoints.ParseAPIPHP | generator/opnsense/collect_api_endpoints.go:103-217 | stops exactly when the file facts stop (too few path segments) or some body slice runs backwards, with that stop; otherwise returns a sorted permutation of the actions plus the missing defaults |
| Endpoints.SourceLink | generator/opnsense/collect_api_endpoints.go:219-225 | a link exists exactly when `src` is found (and for plugins, two segments before it exist); the link is the repository's blob prefix followed by the file's segments from that start |
| Endpoints.SourceURL | generator/opnsense/collect_api_endpoints.go:219-225 | computes the link of `SourceLink`, using the `findIndex` loop |
| Endpoints.SourceLinkOfSegments | generator/opnsense/collect_api_endpoints.go:219-225 | for a path given by `/`-free segments, the link is the blob prefix and the segments from the start, joined by `/` |
| Catalog.ExclusionNeverApplies | generator/opnsense/collect_api_endpoints.go:314 | the exclusion holds capitals and is compared with a lowered path, so a file is selected exactly when its lowered path ends in `controller.php` and contains `mvc/app/controllers` |
| Catalog.ModuleKey | generator/opnsense/collect_api_endpoints.go:319-320 | the module key is the lowered `\`-free suffix of the grandparent directory that is preceded by `\` or is the whole directory |
| Catalog.ModuleKeyIsGrandparent | generator/opnsense/collect_api_endpoints.go:319-320 | on `/` paths the module key is the whole lowered grandparent directory |
| Catalog.Parsed | generator/opnsense/collect_api_endpoints.go:104-112 | a path of fewer than three segments is an index panic; an unreadable file is fatal; the list exists exactly when the file is read, its facts exist and its bodies are in range |
| Catalog.ParseFile | generator/opnsense/collect_api_endpoints.go:103-217 | parses one visited file: it stops exactly as `Parsed` does, and otherwise returns a sorted permutation of its pre-sort list |
| Catalog.VisitOf | generator/opnsense/collect_api_endpoints.go:309-326 | a visit that adds a list does not stop the walk and adds a non-empty list |
| Catalog.KeyIndicesSpec | generator/opnsense/collect_api_endpoints.go:321-324 | the positions of the visits that add under a key: increasing, each adding under that key, and none left out |
| Catalog.ModulesAfterStep | generator/opnsense/collect_api_endpoints.go:321-324 | a visit that adds appends its sorted list under its key, creating the key when new, and leaves every other key as it was |
| Catalog.ModulesAfterSkip | generator/opnsense/collect_api_endpoints.go:314-316 | a visit that adds nothing leaves the module map as it was |
| Catalog.WalkCallback | generator/opnsense/collect_api_endpoints.go:309-326 | the callback stops exactly on a walk error or on a failed parse of a selected file, with that stop; otherwise it extends the module map by this visit |
| Catalog.AddToModule | generator/opnsense/collect_api_endpoints.go:318-325 | a non-empty list is appended under the key, the key is created on first use, no other key changes, and an empty list changes nothing; the map stays the one the visits so far describe |
| Catalog.Walk | generator/opnsense/collect_api_endpoints.go:309-330 | the walk stops exactly when some visit stops it, with the stop of the first such visit; otherwise each module holds the sorted lists of its contributing files, in walk order |
| Catalog.Collect | generator/opnsense/collect_api_endpoints.go:308-330 | the same as `Walk`, stated over the visits of the walked entries |
| Catalog.ModuleListsNonEmpty | generator/opnsense/collect_api_endpoints.go:318 | every list in the module map is non-empty, so a controller record can read endpoint 0 |
| Templates.ControllerOf | generator/opnsense/collect_api_endpoints.go:367-381 | type, file name, abstractness and base class come from endpoint 0; all endpoints are kept; there is one `model` use with the source link and file base name iff endpoint 0 names a model file; a missing `src` segment stops the generator |
| Templates.ModelUseIffModelFile | generator/opnsense/collect_api_endpoints.go:375-381 | a controller record has exactly one use, of kind `model`, when endpoint 0 names a model file, and none otherwise |
| Templates.ControllerRecord | generator/opnsense/collect_api_endpoints.go:366-381 | builds the record `ControllerOf` describes |
| Templates.BuildTemplate | generator/opnsense/collect_api_endpoints.go:360-383 | the underline has one `~` per character of the module name, and there is one record per list, in order, each as `ControllerOf` describes; it fails exactly when some record's link fails |
| RawCli.ApiCategory | cmd/raw.go:68-69 | the category followed by the extension of the base name gives back the base name; it holds no `/` unless the path is the root |
| RawCli.ApiCategoryOfFile | cmd/raw.go:68-69 | for `dir/name.ext` the category is `name`: directories and only the last extension are dropped |
| RawCli.ShortOfSpec | cmd/raw.go:81-84 | the short help starts with `Method: M`, is exactly that without parameters, and otherwise continues with `, Arguments: ` and the bracketed, space-separated parameter list |
| RawCli.LongOfSpec | cmd/raw.go:93 | the long help starts with a blank line and the documentation page `DocsBase` + category + `/` + module + `.html`, then a blank line, and ends with the short help |
| RawCli.SubCommandOf | cmd/raw.go:85-93 | a subcommand's `Use` is `module/controller/command`, its group is `module/controller`, its minimum argument count is the number of parameters, and its method annotation is the entry's method |
| RawCli.UseSegments | cmd/raw.go:86 | with `/`-free names, the `Use` path splits back into module, controller and command |
| RawCli.CommandName | cmd/macro_run.go:42 | the name is the space-free prefix of `Use` that is followed by a space or is the whole `Use` |
| RawCli.GroupsAfterSpec | cmd/raw.go:72-79 | the existing groups stay in front, every entry's group ID is present afterwards, and every added group belongs to some entry |
| RawCli.GroupsAfterUnique | cmd/raw.go:73-79 | group IDs stay distinct: a group shared by many entries is added once |
| RawCli.SubCommandsOf | cmd/raw.go:72-132 | one subcommand per entry, in order: subcommand `i` is the one built for entry `i` |
| RawCli.RawRoot.AddSubcommand | cmd/raw.go:73-131 | one pass of the loop: the entry's group is added only when its ID is new, and its subcommand is appended |
| RawCli.RawRoot.AddSubcommands | cmd/raw.go:68-132 | the groups become those of `GroupsAfter` and the subcommands grow by one per entry, in order |
| RawCli.CallingURL | cmd/raw.go:95-98 | the URL starts with `base/api/Use`; it is exactly that with no arguments, with no trailing `/`, and otherwise a `/` follows |
| RawCli.CallingURLArgs | cmd/raw.go:95-98 | with `/`-free arguments, the path after `Use/` splits back into the arguments |
| RawCli.LastValueSpec | cmd/raw.go:111-118 | with no line starting with the prefix the configured value stays; otherwise the value is the rest of the last such line |
| RawCli.ResolvedCredentials | cmd/raw.go:99-119 | the configured key and secret are used unchanged unless one is empty and a secret file is configured; then a read error is fatal with its message, and a file of at least two lines gives the `LastValue` of its `key=` and `secret=` lines; every failure is fatal |
| RawCli.SecretFileNeedsNewline | cmd/raw.go:107-110 | a readable secret file is rejected, with its message, exactly when it holds no line break |
| RawCli.ResolveCredentials | cmd/raw.go:99-119 | the line-by-line loop gives the credentials of `ResolvedCredentials` |
| RawCli.RunSubcommand | cmd/raw.go:94-129 | for any number of arguments, a run stops exactly when the credential lookup does; otherwise the call goes to `CallingURL` with the subcommand's method and the resolved key and secret |
| MacroRun.Lookup | cmd/macro_run.go:41-46 | the index found is the first subcommand with that name, or -1 when none has it |
| MacroRun.MacroOutcome | cmd/macro_run.go:25-55 | with no arguments the list is shown; otherwise the warning is given exactly when no macro has the name |
| MacroRun.CommandRunsSpec | cmd/macro_run.go:39-47 | every run gets the remaining arguments and is the first subcommand named by some command; a macro runs nothing when no name matches, and one run per name when all match |
| MacroRun.CommandRunsAppend | cmd/macro_run.go:39-47 | commands run in listed order: the runs of a split command list are the runs of its parts, concatenated |
| MacroRun.MacroRunsAppend | cmd/macro_run.go:35-49 | macros are handled in file order: the runs of a split macro list are the runs of its parts, concatenated |
| MacroRun.EveryMatchingMacroRuns | cmd/macro_run.go:35-39 | every macro with the name runs, not only the first: its runs appear whole, right after those of the macros before it |
| MacroRun.UnmatchedMacrosRunNothing | cmd/macro_run.go:34-36 | when no macro has the name, nothing runs |
| MacroRun.RunsGetRemainingArgs | cmd/macro_run.go:43 | every run receives the arguments after the macro name |
| MacroRun.RunCommands | cmd/macro_run.go:39-47 | the search loop with `break` runs exactly the runs of `CommandRuns` |
| MacroRun.RunMacroRun | cmd/macro_run.go:25-55 | the nested loops produce exactly `MacroOutcome`: the list, or the runs and the warning flag |

## Left out

- Regular expressions: the class header, model and service class declarations and method headers are inputs (`Matches`), in file order. Each matched header text is required to occur in the file.
- File reading and `os.Stat`: file contents arrive with each walked entry, and the set of existing paths stands in for `os.Stat`. Fatal log messages are kept without their formatted arguments.
- `filepath.Walk` is a sequence of visits in walk order. Paths are taken to be clean and `/`-separated, which makes `filepath.ToSlash` the identity. A walk error stops the generator with the walk error message.
- Git clone and pull, flag parsing, output-file creation, template parsing and execution: I/O and a foreign templating engine.
- `strings.ToTitle` of the module name is not modelled. Go's iteration order over the module map is random, so the order of modules in the output is not modelled; `BuildTemplate` covers one module.
- Templates.BuildTemplate: states that some controller's link fails, but not which failure stops the generator first.
- `strings.ToLower` is modelled for ASCII letters only. String comparison is by character, which matches Go's byte order on UTF-8. `len` of the module name counts characters, not bytes.
- Endpoints.SortByCommand: stated as any sorted permutation. `sort.Slice` leaves the order of equal commands unspecified, and the insertion sort is one such order.
- `callOpnSenseAPI`: the HTTP client, TLS, basic authentication and JSON printing are not modelled. A run ends in the `ApiCall` it would make; its fatal exits (request creation, an unreachable host, an unreadable body, a reply that is not JSON) are not modelled.
- The YAML decoding of the commands and macro files, the commands-file accessibility check, and cobra/viper flag binding are left out. Their results are parameters.
- cobra's `Commands()` sorts subcommands by name before `macro run` searches them. That sorting lives in cobra; the model searches the subcommand list in the order it is given.
- cobra's `MinimumNArgs` check runs only when cobra dispatches a command line; it is kept as `SubCommand.minArgs` but not enforced. `macro run` calls a subcommand's `Run` directly, so `RunSubcommand` takes any number of arguments.
- The debug log line of a subcommand's run, which writes the resolved key and secret, is not modelled.
- The log messages of `macro run` (the error, the info line and the warning) are not modelled. The warning is the `warned` flag, and the macro list is the `ListShown` outcome.
- MacroRun.MacroOutcome: the runs are those `macro run` starts when each run returns. A run that stops the CLI ends the macro there: a fatal credential lookup (`RunSubcommand` fails) or a fatal exit of `callOpnSenseAPI`. The later runs are then never made. `MacroRun.EveryMatchingMacroRuns` holds under the same condition.
