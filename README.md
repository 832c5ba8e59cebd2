# cpp-hub generation core in Dafny

cpp-hub is a command-line tool that creates C++ projects from template
repositories. A registry repository lists the templates in `index.json`. A
template repository holds a `hub-manifest.json` that declares the variables
to ask for. `cpp-hub new` loads that manifest and collects a value for each
variable, from the defaults or from standard input. It then copies the
template tree into a new target directory, replacing `{{key}}` tokens in
relative paths and in file contents. Finally it offers to run the template's
post-generation hooks, one confirmation per hook.

This project models that core and proves its properties:

- `string_utils.dfy` holds the ASCII string helpers. These are lowering,
  trimming, case-insensitive equality and containment, and the yes/no parser.
- `json.dfy` is the part of a parsed JSON document the loaders read. It
  includes nlohmann's `value()`, which throws when a present member has the
  wrong type.
- `manifest.dfy` models `load_manifest` on a parsed document.
- `collector.dfy` models the validators and `collect_variables_interactively`.
  Standard input is a sequence of lines.
- `substitution.dfy` models `apply_substitutions`: `{{key}}` replacement in
  the iteration order of the values map.
- `paths.dfy` and `filesystem.dfy` model paths as component sequences and the
  file system as a map from paths to nodes.
- `renderer.dfy` models `path_contains_git_dir` and `render_template`. It also
  gives a declarative reading of what a render writes.
- `registry.dfy` models the `Registry` class: loading `index.json` into the map
  from template id to template, and looking templates up.
- `cli.dfy` models the decisions of the front end. These are dispatch, option
  parsing, the search and list filters, and validation. It also models the
  parts of `run_generation` after collection: the default target, the overlay
  loop, the hook confirmations and the exit code.

Some things are parameters rather than part of the model:

- the regex engine (`Regex`) and `json::dump` (`Dump`);
- the iteration order of an `unordered_map` or of the template tree (`order`,
  `walk`);
- the file contents the renderer reads (the `Tree` of the template).

Where the code and its documentation disagree, the model follows the code:

- The `render_template` that src/core/renderer.cpp:41-44 defines takes
  three parameters and always refuses an existing target
  (src/core/renderer.cpp:47-50). include/cpp_hub/renderer.hpp:15-19 declares
  a different overload with a fourth parameter, `allowExisting`, defaulting
  to `false`. src/cli/cli.cpp sees only that declaration, so both of its
  calls bind to the four-parameter overload: the base render at
  src/cli/cli.cpp:455 through the default argument, and the overlay render
  at src/cli/cli.cpp:479 with `true`. None of the source files defines that
  overload, so the program as written does not link. The model gives both
  calls the body of the three-parameter definition (see "## Left out").
  `ApplicableOverlayFails` states what follows in the model: after a
  successful base render, every applicable overlay whose directory exists
  makes generation fail.
- `load_manifest` never reads an `overlays` member, so the overlay list of a
  loaded manifest is always empty (`ManifestHeader`). As a result, the failure
  above cannot happen in a real run (`LoadedManifestRendersBaseOnly`).
- Substitution is not independent of the order of the values map. A value
  that contains another token is expanded or not depending on which key
  comes first (`SubstitutionOrderMatters`).
- A variable value that starts with `/` and is used in a path makes the
  entry land outside the target, because appending an absolute path replaces
  the base (`AbsoluteValueLeavesTarget`).

## Model

| member | source | states |
|---|---|---|
| StringUtils.LowerChar | src/util/string_utils.cpp:8-12 | the result is never upper case; A-Z maps to a-z (+32); every other character is unchanged |
| StringUtils.ToLower | src/util/string_utils.cpp:8-12 | the result has the input's length, and each character is lowered on its own |
| StringUtils.LowerIdempotent | src/util/string_utils.cpp:8-12 | lowering twice is the same as lowering once |
| StringUtils.Trim | src/util/string_utils.cpp:14-26 | the result is a slice of the input, with only whitespace cut off on each side, that neither starts nor ends with whitespace |
| StringUtils.TrimmedIsTrim | src/util/string_utils.cpp:14-26 | the functional trim meets that characterisation |
| StringUtils.TrimmedIdempotent | src/util/string_utils.cpp:14-26 | trimming a trimmed string changes nothing |
| StringUtils.TrimmedAllSpace | src/util/string_utils.cpp:19-21 | trim gives "" exactly when every character is whitespace |
| StringUtils.Find | src/util/string_utils.cpp:32-36 | returns the first occurrence at or after `from`, or -1 when there is none |
| StringUtils.IEqualsSpec | src/util/string_utils.cpp:28-30 | iequals holds exactly when the lengths agree and the characters agree after lowering; it is reflexive, symmetric and transitive |
| StringUtils.IContains | src/util/string_utils.cpp:32-36 | true exactly when the lowered needle occurs in the lowered text |
| StringUtils.IContainsBasics | src/util/string_utils.cpp:32-36 | the empty needle is always contained; an iequal string is contained |
| StringUtils.ParseBool | src/util/string_utils.cpp:38-49 | recognises true/yes/y/1 and false/no/n/0 after trimming and lowering, and sets the output accordingly; any other text fails and leaves the output unchanged |
| StringUtils.ParseBoolCanonical | src/util/string_utils.cpp:38-49 | "true" and "false" parse to themselves, so a stored boolean parses again |
| StringUtils.ParseBoolFoldsAndTrims | src/util/string_utils.cpp:38-49 | " YES\t" parses as yes and "False" as no |
| StringUtils.ParseBoolRejects | src/util/string_utils.cpp:38-49 | "maybe" and "" are rejected, and the output is kept |
| Json.StringValue | src/core/registry.cpp:102-106 | value(key, default) throws exactly when the document is not an object or the member has the wrong type; otherwise it gives the member or the default |
| Json.CollectStrings | src/core/registry.cpp:108-114 | the loop keeps the string items of an array, in order |
| Json.StringItemsAppend | src/core/registry.cpp:108-114 | filtering distributes over concatenation |
| Json.StringItemsMembers | src/core/template_manifest.cpp:91-95 | the kept strings are exactly the string items, and there are no more of them than items |
| Paths.SegmentsOfJoinPath | src/core/renderer.cpp:84-86 | turning a relative path into its generic string and back gives the same components |
| FileSystem.MkDirsSpec | src/core/renderer.cpp:51-55 | create_directories succeeds exactly when no prefix of the path is a non-directory; it keeps every entry and leaves the path a directory |
| FileSystem.MkDirsKeepsTree | src/core/renderer.cpp:51-55 | creating directories keeps the tree well formed |
| FileSystem.WriteFileSpec | src/core/renderer.cpp:112-119 | writing a file succeeds exactly when the parent is a directory and the path is not one; only that entry changes |
| Manifest.KindOf | src/core/template_manifest.cpp:60-73 | "string", "select" and "boolean" are the only type names; each maps back to its name |
| Manifest.LoadVariable | src/core/template_manifest.cpp:55-111 | the loop body for one entry computes ParseVariable |
| Manifest.LoadVariables | src/core/template_manifest.cpp:55-111 | the variables loop computes ParseVariables |
| Manifest.LoadHooks | src/core/template_manifest.cpp:113-122 | the hooks loop keeps the string items of hooks.post_gen |
| Manifest.LoadManifest | src/core/template_manifest.cpp:21-125 | the loader computes ParseManifest |
| Manifest.ParseVariablesStopsAtError | src/core/template_manifest.cpp:55-111 | once an entry fails, the later entries do not change the error |
| Manifest.ManifestHeader | src/core/template_manifest.cpp:36-52 | schema_version, id, name and version are required strings, checked in that order and reported by name; on success they are copied, description defaults to "", variables was an object, the hooks are hooks.post_gen, and overlays is empty |
| Manifest.ParsedVariablesFollowEntries | src/core/template_manifest.cpp:55-111 | on success there is one variable per entry, in order, named by its key, with the kind its type names |
| Manifest.ParseVariablesLast | src/core/template_manifest.cpp:55-111 | a successful parse extends the parse of all entries but the last |
| Manifest.VariableHasItsKind | src/core/template_manifest.cpp:56-73 | a parsed variable carries its key and the kind its type names |
| Manifest.VariableErrorIsFirstBadEntry | src/core/template_manifest.cpp:55-111 | a failure is the error of some entry, and every earlier entry parses |
| Manifest.VariableRules | src/core/template_manifest.cpp:56-108 | a missing or unknown type is an error naming the variable; prompt defaults to name + "?"; a string default is kept, a boolean default becomes "true"/"false", any other default becomes its JSON text, and a missing default is ""; a select variable needs an options array with at least one string and keeps only its strings; other kinds have no options |
| Collector.ValidateSelect | src/core/template_manifest.cpp:149-161 | accepts exactly the values among the options |
| Collector.Prompt | src/core/template_manifest.cpp:202-262 | the value is the first line whose answer is accepted, and every earlier line was rejected; at end of input every remaining line was rejected and there is no value |
| Collector.Collect | src/core/template_manifest.cpp:163-266 | never reads past the input, and reads nothing with --defaults |
| Collector.Next | src/core/template_manifest.cpp:163-266 | one round reads forward only, and reads nothing with --defaults |
| Collector.DefaultFor | src/core/template_manifest.cpp:171-200 | the --defaults branch for one variable computes FromDefault |
| Collector.PromptFor | src/core/template_manifest.cpp:202-262 | the prompt loop for one variable computes Prompt |
| Collector.CollectVariables | src/core/template_manifest.cpp:163-266 | the whole collection loop computes Collect: result, map and lines read |
| Collector.CollectStopsAtFailure | src/core/template_manifest.cpp:163-266 | after a failed variable, the later variables change nothing |
| Collector.AcceptIsCanonical | src/core/template_manifest.cpp:127-262 | a stored value is accepted again unchanged |
| Collector.FromDefaultIsAccept | src/core/template_manifest.cpp:171-200 | --defaults accepts a non-empty default exactly as an interactive answer would, and fails on an empty one |
| Collector.AnswerRules | src/core/template_manifest.cpp:210-258 | a blank line stands for the default; a string answer must be non-empty and not rejected by its pattern; a select answer must be an option; yes/no words in any case become "true"/"false" |
| Collector.CollectStep | src/core/template_manifest.cpp:163-266 | each round leaves the map as it was, or binds the variable's name to a canonical value; success binds it |
| Collector.DefaultStep | src/core/template_manifest.cpp:171-200 | a stored default is canonical for its variable |
| Collector.PromptStep | src/core/template_manifest.cpp:202-262 | a stored answer is canonical for its variable |
| Collector.CollectedValuesValid | src/core/template_manifest.cpp:163-266 | every stored value belongs to a variable of that name and is canonical for it; on success every variable has a value |
| Collector.InteractiveNeedsALinePerVariable | src/core/template_manifest.cpp:202-262 | a successful interactive session reads at least one line per variable; with fewer lines it fails |
| Collector.BlankAnswersAreDefaults | src/core/template_manifest.cpp:163-266 | with non-empty defaults, blank answers fill the same map as --defaults, succeed when it does, and use one line per variable |
| Substitution.ReplaceCopiesUntil | src/core/renderer.cpp:21-25 | text before the first occurrence of the token is copied unchanged |
| Substitution.ReplaceAtFind | src/core/renderer.cpp:21-25 | without an occurrence the text is unchanged; otherwise the prefix is kept, the value replaces the token, and the search goes on after the value |
| Substitution.FindInSuffix | src/core/renderer.cpp:21-25 | searching from an offset equals searching the suffix, shifted |
| Substitution.ReplaceToken | src/core/renderer.cpp:21-25 | the find/replace loop computes ReplaceAll: every occurrence, left to right, never re-scanning an inserted value |
| Substitution.LeadingTokenReplacedOnce | src/core/renderer.cpp:21-25 | a leading token becomes the value, and the rest is processed on its own |
| Substitution.ReplaceAllWithoutToken | src/core/renderer.cpp:21-25 | text without the token is unchanged |
| Substitution.ApplySubstitutions | src/core/renderer.cpp:15-28 | replaces each key's token in the map's iteration order |
| Substitution.KeyOrder | src/core/renderer.cpp:19 | some iteration order exists for every map: it lists every key exactly once |
| Substitution.SubstituteWithoutTokens | src/core/renderer.cpp:15-28 | a text holding no `{{key}}` of any key in the map is unchanged, so unknown tokens and other `{{` syntax stay verbatim |
| Substitution.SubstituteEmpty | src/core/renderer.cpp:15-28 | an empty map leaves every text unchanged |
| Substitution.SubstituteWithoutBraces | src/core/renderer.cpp:15-28 | text without "{{" is unchanged |
| Substitution.SubstitutionOrderMatters | src/core/renderer.cpp:15-28 | the two orders of {a: "{{b}}", b: "x"} give different results for "{{a}}" |
| Substitution.ReplaceWholeToken | src/core/renderer.cpp:21-25 | a text that is exactly the token becomes the value |
| Substitution.ReplaceSameLength | src/core/renderer.cpp:21-25 | a different text of the token's length is unchanged |
| Renderer.PathContainsGitDir | src/core/renderer.cpp:30-39 | true exactly when a component named .git lies between the stop point and the end of the path |
| Renderer.GitDirInEntry | src/core/renderer.cpp:62-67 | for an entry below the template root, the check looks at exactly the entry's own components |
| Renderer.VisitEntry | src/core/renderer.cpp:58-120 | one loop iteration updates the pruned set and runs on disk exactly the action Visit adds |
| Renderer.CopyTree | src/core/renderer.cpp:58-120 | the loop over the walk runs, in order, the actions Iterate collects, stopping at the first failure |
| Renderer.RenderTemplate | src/core/renderer.cpp:41-127 | the method computes Render: an existing target, a failed create or an unreadable template fail; otherwise the walk's actions run |
| Renderer.ExecAppend | src/core/renderer.cpp:58-120 | running actions in two parts is running them all |
| Renderer.ExecStopsAtFailure | src/core/renderer.cpp:121-124 | once an entry fails, later entries change nothing |
| Renderer.IterateIsPlan | src/core/renderer.cpp:58-99 | the pruned walk makes the same actions as the plan, which skips every entry with a .git or hub-manifest.json component and every entry that is neither a directory nor a regular file |
| Renderer.YieldedIffVisible | src/core/renderer.cpp:62-82 | after pruning, the iterator yields an entry exactly when none of its ancestors is named .git or hub-manifest.json |
| Renderer.PrunedAmongMembers | src/core/renderer.cpp:62-82 | the pruned set holds exactly the special directories walked so far |
| Renderer.ExecEffects | src/core/renderer.cpp:101-119 | running actions keeps a tree a tree, removes nothing, changes only files it writes, and adds only entries on the way to a destination |
| Renderer.ExecOkWrites | src/core/renderer.cpp:88-119 | after a successful run every directory action's destination is a directory, and every file holds the content of the last copy to it |
| Renderer.ExecKeepsDirs | src/core/renderer.cpp:101-119 | a successful run keeps every directory a directory |
| Renderer.RenderRefusesExisting | src/core/renderer.cpp:47-50 | an existing target fails and nothing changes |
| Renderer.RenderFrame | src/core/renderer.cpp:41-127 | whatever the outcome, no entry is removed, and an existing entry changes only when a rendered file is written over it |
| Renderer.RenderCreatesTarget | src/core/renderer.cpp:47-55 | success needs a readable template and a target that did not exist, and leaves the target a directory |
| Renderer.RenderEffects | src/core/renderer.cpp:41-127 | the frame and target properties together |
| Renderer.RenderWritesPlan | src/core/renderer.cpp:58-120 | after a successful render every planned directory exists, and every planned file holds the rendered content of the last entry mapped to it |
| Renderer.DestWithoutValues | src/core/renderer.cpp:84-86 | with no variables, an entry lands at the same relative path below the target |
| Renderer.AbsoluteValueLeavesTarget | src/core/renderer.cpp:84-86 | an entry named {{dir}} with dir = "/etc" lands at /etc, outside the target |
| Registry.ParseEntry | src/core/registry.cpp:96-114 | an entry fails exactly when it is not an object or one of its five string fields has another type, and the error names its key; otherwise each field is the member's string when present, the id defaulting to the key and name, description, url and build_system to "", and the tags are the string items of a `tags` array, in order, or none |
| Registry.ReadEntry | src/core/registry.cpp:101-114 | the field reads and the tags loop compute ParseEntry |
| Registry.Registry.constructor | src/core/registry.cpp:18-19 | a new registry has no name, no templates and is not loaded |
| Registry.Registry.FindTemplate | src/core/registry.cpp:33-37 | finds a template exactly when its id is a key; a template found in a loaded map carries that id and is listed |
| Registry.Registry.Reload | src/core/registry.cpp:65-70 | clears the templates and loads the index; the registry is loaded exactly when loading did not throw, and the map stays keyed by id |
| Registry.Registry.LoadIndex | src/core/registry.cpp:72-124 | an unreadable index, a non-string registry_name and a missing templates object each fail; the name is copied, or cleared when absent; the entries are inserted |
| Registry.Registry.InsertEntries | src/core/registry.cpp:96-123 | the loop computes Insert over the entries read in order, stopping at the first bad one |
| Registry.InsertKeyed | src/core/registry.cpp:116-122 | every stored template sits under its own id and is listed |
| Registry.IndexLoadKeyed | src/core/registry.cpp:72-124 | loading an index keeps the map keyed by id |
| Registry.InsertGrows | src/core/registry.cpp:122 | emplace never replaces an entry; every new key holds a listed entry read from the index |
| Registry.InsertStep | src/core/registry.cpp:96-123 | one more entry is handled as the loop body does |
| Registry.InsertKeepsError | src/core/registry.cpp:96-123 | after a bad entry, the later entries change nothing |
| Registry.InsertLast | src/core/registry.cpp:96-123 | the last entry adds at most its own id |
| Registry.FirstEntryWins | src/core/registry.cpp:122 | among listed entries with the same id, the first one read is stored |
| Registry.NoErrorReadAll | src/core/registry.cpp:96-123 | a load without error read every entry successfully |
| Registry.BadEntryStopsLoading | src/core/registry.cpp:96-123 | the error is a bad entry's own, and what earlier entries inserted stays |
| Registry.EntryDefaults | src/core/registry.cpp:102-114 | an entry with only a url gets its key as id and empty defaults |
| Registry.MissingNameClears | src/core/registry.cpp:86-90 | an index without registry_name clears the name |
| Cli.Dispatch | src/cli/cli.cpp:50-85 | no command or an unknown one gives usage with exit 1; help gives usage with exit 0; every other command gets the arguments after its name |
| Cli.ValidateCode | src/cli/cli.cpp:261-280 | exit 0 exactly when a path is given and its manifest loads, which needs the four header strings and a variables object |
| Cli.JoinQuery | src/cli/cli.cpp:142-146 | the loop joins the arguments with single spaces |
| Cli.WordsOfJoinArgs | src/cli/cli.cpp:142-146 | splitting the joined query at spaces gives back arguments that hold no spaces |
| Cli.SearchQuery | src/cli/cli.cpp:135-146 | search without arguments fails; otherwise the query splits back into the arguments |
| Cli.AnyTag | src/cli/cli.cpp:161-166 | the tag loop finds a tag containing the query (search) or iequal to the tag (list) |
| Cli.SelectTemplates | src/cli/cli.cpp:153-171 | the filter loop keeps the matches in the map's key order |
| Cli.SelectMembers | src/cli/cli.cpp:153-171 | a template is kept exactly when it is in the registry and matches the filter; there are never more matches than templates |
| Cli.ListAll | src/cli/cli.cpp:217-233 | list without --tag shows every template of the registry once |
| Cli.StrLessIrreflexive | src/cli/cli.cpp:218 | no key precedes itself in the std::map order |
| Cli.ParseListArgs | src/cli/cli.cpp:198-210 | the option loop of list computes ListOptions |
| Cli.ListOptionsSpec | src/cli/cli.cpp:198-210 | the options are accepted exactly when they are --tag/value pairs; the filter is the last value, or "" with none |
| Cli.ParseNewArgs | src/cli/cli.cpp:282-370 | the option loops of new compute NewArgs: a registry id with only --defaults after it, or --git with a url, --branch pairs and --defaults |
| Cli.GitDefaultsAppended | src/cli/cli.cpp:356-370 | a trailing --defaults keeps the branch and turns defaults on |
| Cli.GitLastBranchWins | src/cli/cli.cpp:356-370 | a later --branch overrides an earlier one and keeps the defaults flag |
| Cli.DefaultName | src/cli/cli.cpp:419-427 | never empty; a non-empty project_name wins, then the manifest id, then "cpp-project" |
| Cli.TargetPathSpec | src/cli/cli.cpp:429-447 | a blank answer chooses the default name; a plain name is a directory in the current directory; a text that starts with '/' names that path |
| Cli.ApplyOverlays | src/cli/cli.cpp:460-483 | the overlay loop computes Overlays |
| Cli.OverlaysKeepFailure | src/cli/cli.cpp:479-482 | after a failed overlay, the later rules change nothing |
| Cli.BlockedSpec | src/cli/cli.cpp:460-476 | Blocked holds exactly when some rule applies and its directory exists |
| Cli.OverlaysOntoExistingTarget | src/cli/cli.cpp:460-483 | onto an existing target, the loop fails exactly when some rule is applicable, and the tree is unchanged |
| Cli.ApplicableOverlayFails | src/cli/cli.cpp:449-483 | after a successful base render, generation fails exactly when some overlay is applicable, and keeps the rendered tree |
| Cli.LoadedManifestRendersBaseOnly | src/cli/cli.cpp:449-483 | with a loaded manifest, generation is the base render |
| Cli.RunGeneration | src/cli/cli.cpp:403-520 | run_generation computes Generation |
| Cli.RunWithManifest | src/cli/cli.cpp:414-520 | after loading, it computes WithManifest |
| Cli.RunAfterCollect | src/cli/cli.cpp:419-520 | after collection, it computes AfterCollect |
| Cli.RenderAndConfirm | src/cli/cli.cpp:449-520 | rendering and the hooks compute Finish |
| Cli.FinishSpec | src/cli/cli.cpp:449-520 | exit 0 or 1; success means the target did not exist and there was an answer per hook; without overlays the target is then a directory; only manifest hooks run |
| Cli.AfterCollectSpec | src/cli/cli.cpp:414-520 | exit 0 or 1; success means collection succeeded, the target line was read, the target did not exist and is now a directory, and a line remained for every hook |
| Cli.GenerationSpec | src/cli/cli.cpp:403-520 | exit 0 or 1; success means the manifest loaded |
| Cli.HookDecision | src/cli/cli.cpp:497-507 | a hook runs on a blank answer or a yes word; a no word or any other answer skips it |
| Cli.ConfirmHooks | src/cli/cli.cpp:487-517 | the hook loop computes Hooks over the rest of the input |
| Cli.HooksKeepAbort | src/cli/cli.cpp:493-496 | after the end of input, later hooks change nothing |
| Cli.HooksCode | src/cli/cli.cpp:487-517 | the loop succeeds exactly when there is an answer for every hook |
| Cli.HooksRan | src/cli/cli.cpp:509-515 | only manifest hooks run, at most one run per hook |
| Cli.ConfirmedHooksRun | src/cli/cli.cpp:497-515 | a hook whose answer confirms it is run |

## Left out

- Cloning, pulling and checking out git repositories are not modelled. This covers `Registry::ensure_initialized` and `Registry::update` (src/core/registry.cpp:39-63), and the cache-path, clone and checkout steps of `handle_new_from_registry` and `handle_new_from_git`. These are process calls whose results the model cannot see. The hash-based cache name is also left out.
- `handle_version`, `handle_update` and the table printing are console output only. They are left out.
- Running a hook is left out. `run_command_in_dir` is a process call, and its result does not influence the loop, so the model records which hooks would run.
- Reading and parsing the files is not modelled. The manifest and the index arrive as a parsed document, or as None when the file cannot be opened or is not JSON. The template tree arrives as a snapshot, and its iteration order as a walk.
- File read and write errors other than the structural ones are left out (permissions, a full disk, an open stream that fails later). So are symbolic links, `.` and `..`, and the empty component after a trailing separator. The renderer's `fs::relative` is modelled as cutting off the template root.
- The regex engine is left out. `std::regex_match` is a parameter whose only visible effect is match, no match, or a malformed pattern.
- `json::dump` is left out; it is a parameter.
- The iteration order of `std::unordered_map` is left out. It is a parameter (`order`) constrained only to list every key once.
- The order of the directory iterator is left out too. It is a parameter (`walk`) constrained to list every entry once, each after its ancestors (the iterator's pre-order, `IsWalk`).
- Lowering and whitespace are ASCII only, as in the "C" locale. Other locales are left out.
- The template tree a render walks (`snapshot`, `walkOf`) is independent of the file system `fs` that the render writes. So the overlay check `Exists(fs, ...)` and the tree the walk lists may disagree. A target created inside the template root is never seen by the walk.
- Cli.GenerationSpec: states only the exit codes and that success needs a loaded manifest. The stronger facts about the target and the hooks are stated by Cli.AfterCollectSpec and Cli.FinishSpec.
- The four-parameter `render_template` that src/cli/cli.cpp:455 and :479 call
  has no definition in the source, so the merge that `allowExisting = true`
  promises for overlays is not modelled. Both calls run the body of the
  three-parameter definition in src/core/renderer.cpp:41-44 (`RenderTemplate`).
- Cli.FinishSpec: states that the target is a directory only when there are no overlay rules. With rules, generation fails after a successful base render (Cli.ApplicableOverlayFails).
- `handle_new_from_registry` (src/cli/cli.cpp:312-339) is modelled only through its parts: Registry.Registry.FindTemplate for the lookup and Cli.RunGeneration for the generation. The template cache and the clone between them are process calls.
