# A verified model of the AI code-examples gallery

The repository is a gallery: the same set of example apps is generated by
several AI models, and the results are shown side by side. This project
models its core in Dafny and proves properties of the model:

- **Generation script** (`scripts/generate.ts`). It parses the command line
  (`--force-all`, `--concurrency`, `--force`, leading model ids), chooses the
  target models and builds the model-major task list. For each task it
  decides between skipping, generating and failing, builds the per-family
  agent command and prompt, and tallies the outcomes. A pool admits tasks
  with at most `concurrency` in flight (`Generate`, `GenerateArgs`).
- **Model registry** (`lib/models.config.ts`, `lib/models.ts`). The table of
  eight models, lookup by id, the output paths and the UI projection
  (`ModelsConfig`, `ModelsView`).
- **Example catalogue** (`lib/load-yaml.ts`, `lib/code-examples.ts`). The
  recursive YAML discovery walk with its skip list, and the normalisation of
  each record into a code example. This covers the slug, the title fallback,
  tag and boolean coercion and the derived URLs, followed by the
  filter-then-sort pipeline (`LoadYaml`, `CodeExamples`).
- **Gallery layout and routing**. The round-robin rows of the home grid
  (`AppGrid`). The `/compare/<id>?models=&view=&tab=` deep link, with its
  popstate and click handling and the tag display (`GridRouting`). The
  comparison view's selection toggle, "select all", URL builder and colour
  classes (`ComparisonView`). The query-string encoding both views share
  (`UrlQuery`).
- **Static-export fix scripts**. The six `.mjs` scripts that rewrite the
  asset paths of exported Next.js apps with ordered literal replacements
  (`Rewrite`, `AppRoots`, `FixApps`, `FrontEndFixApps`, `FixComprehensive`,
  `FixAbsolutePaths`, `FixPaths`). The two `next.config.ts` rewrite tables
  built from a directory listing (`NextConfig`, `FrontEndNextConfig`).

Shared vocabulary lives in three modules:

- `Wrappers` holds the optional value and the outcome of an operation that
  can throw.
- `Text` holds the JavaScript string operations the sources use.
  `split(p).join(r)` is a replace-all, and `replace` with a string pattern
  replaces the first match only.
- `Fs` models the file system. It is a tree of directory entries in listing
  order, plus a disk that maps paths to contents and logs every write.

The imperative parts of the sources are methods with loops proved against
specification functions. These are `main`'s loops in the generation script,
the pool, `loadApps`, the YAML walk, the row partition, the scripts' walks and
replacement loops, and the config scans. The stateful UI is modelled as
classes whose fields are the React state cells: the `Router` class in
`GridRouting` and the `Comparison` class in `ComparisonView`.

Some facts about the code, as the model reproduces them:

- An unknown CLI family throws after the sandbox directory is created, but
  before the `try` whose `finally` removes it, so that task fails and leaves
  its sandbox behind (scripts/generate.ts:131-132, 156-165). The skip check
  is existence-only.
- In `scripts/fix-nextjs-comprehensive.mjs:45` and
  `front-end/scripts/fix-nextjs-absolute-paths.mjs:33, 38, 41, 52`, the
  single-quote replacements emit a stray trailing `'`. The model reproduces
  this output exactly (`FixComprehensive.StrayQuote`,
  `FixAbsolutePaths.RelativeSingleStrayQuote`,
  `FixAbsolutePaths.AppNextSingleStrayQuote`,
  `FixAbsolutePaths.AppRootSingleStrayQuote`,
  `FixAbsolutePaths.GptNextSingleStrayQuote`).
- The front-end routing accepts only six hard-coded model ids, while the
  registry has eight. "Select all" therefore writes two ids into the URL
  that a reload drops (`ComparisonView.SelectAllUnlisted`).

## Model

| member | source | states |
|---|---|---|
| ModelsConfig.Ids | lib/models.config.ts:18-75 | the id column of the registry, one per entry and in entry order |
| ModelsConfig.RegistryIdsUnique | lib/models.config.ts:2-3 | no two of the eight registry entries share an id |
| ModelsConfig.RegistryClisKnown | lib/models.config.ts:9 | every entry's CLI family is `claude`, `codex` or `gemini` |
| ModelsConfig.FindModel | lib/models.config.ts:78-80 | `find`: a result is an entry with that id and no earlier entry has it; no result exactly when no entry has the id |
| ModelsConfig.FindModelOwnId | lib/models.config.ts:78-80 | with unique ids, looking up entry i's id returns entry i |
| ModelsConfig.GetModelOwnId | lib/models.config.ts:78-80 | `getModel(m.id)` is `m` for every registry entry |
| ModelsConfig.AppOutputPath | lib/models.config.ts:83-90 | the output path is the model's apps directory, `/`, the app id and `/index.html` |
| ModelsConfig.AppOutputPathInjective | lib/models.config.ts:88-90 | for ids without `/`, equal output paths mean equal model ids and equal app ids |
| ModelsView.Project | lib/models.ts:4-8 | same length as the registry; entry i keeps entry i's id, name and colour |
| ModelsView.UiModelIdsUnique | lib/models.ts:4-8 | the projected ids are pairwise distinct |
| ModelsView.UiModelIdsAreRegistryIds | lib/models.ts:4-8 | the projection has the registry's length and its ids in registry order |
| GenerateArgs.Leading | scripts/generate.ts:267-270 | the longest prefix of tokens without a `--` token; the token after it, if any, is a flag |
| GenerateArgs.SkipSpace | scripts/generate.ts:259 | `parseInt` first drops a run of white space; what remains starts with no white space |
| GenerateArgs.DigitRun | scripts/generate.ts:259 | the longest run of decimal digits at the front, stopping at the first non-digit |
| GenerateArgs.ParseIntNumeral | scripts/generate.ts:259 | `parseInt` of white space, a decimal numeral and a non-digit tail gives that number |
| GenerateArgs.ParseIntNegative | scripts/generate.ts:259-260 | `parseInt` of `-` and a numeral gives its negation, which the `n > 0` test rejects |
| GenerateArgs.Concurrency | scripts/generate.ts:248-261 | concurrency is always at least 1, and exactly 1 without a `--concurrency` token (lines 248, 257-261) |
| GenerateArgs.ConcurrencyGiven | scripts/generate.ts:257-261 | `--concurrency <n>` with n > 0 after tokens without `--concurrency` sets n |
| GenerateArgs.ConcurrencyRejected | scripts/generate.ts:258-260 | a value whose `parseInt` is NaN or not positive leaves the default 1 |
| GenerateArgs.ForceIds | scripts/generate.ts:264-271 | no `--force`: empty; else exactly the tokens right after the first `--force` up to the next `--` token or the end |
| GenerateArgs.ForceAllIsNotForce | scripts/generate.ts:252-264 | a lone `--force-all` starts no `--force` collection (lines 252, 264) |
| GenerateArgs.RegisteredIdsMembers | scripts/generate.ts:274-280 | an id is kept exactly when it is among the tokens and the registry has an entry with it |
| GenerateArgs.ModelFilter | scripts/generate.ts:274-280 | the filter holds exactly the registered ids among the tokens before the first flag; unknown ids are dropped |
| GenerateArgs.ParseArgs | scripts/generate.ts:243-280 | the step-by-step parse yields the same options as the parse functions, with concurrency at least 1 |
| GenerateArgs.CollectForce | scripts/generate.ts:264-271 | the `--force` loop pushes exactly the values `ForceIds` describes |
| GenerateArgs.CollectValues | scripts/generate.ts:267-270 | the loop from `start` pushes every token until a flag or the end, in order |
| GenerateArgs.CollectModelFilter | scripts/generate.ts:274-280 | the positional loop pushes exactly the registered ids before the first flag |
| GenerateArgs.Keep | scripts/generate.ts:284 | `filter`: an entry is kept exactly when its id is in the filter |
| GenerateArgs.KeepSubsequence | scripts/generate.ts:284 | the kept entries are a subsequence of the registry, so registry order is kept |
| GenerateArgs.TargetModels | scripts/generate.ts:283-285 | all models for an empty filter, else exactly the registry entries whose id is in the filter |
| GenerateArgs.TargetModelsInRegistryOrder | scripts/generate.ts:283-285 | targets are a subsequence of the registry and, with unique registry ids, hold no model twice even when an id is repeated |
| GenerateArgs.SubsequenceUnique | scripts/generate.ts:283-285 | a subsequence of entries with unique ids has unique ids |
| GenerateArgs.TargetsOfParsedFilter | scripts/generate.ts:274-285 | a non-empty filter gives non-empty targets all named before the first flag; a filter of unknown ids falls back to all models |
| Generate.YamlFileNames | scripts/generate.ts:41-42 | a listed name is loaded exactly when it ends in `.yaml`, in listing order |
| Generate.Tasks | scripts/generate.ts:318-323 | the task list has one entry per (target, example) pair: its length is targets times examples |
| Generate.TaskAt | scripts/generate.ts:318-323 | entry `i * |examples| + j` pairs target i with example j (model-major order) |
| Generate.BuildTasks | scripts/generate.ts:318-323 | the nested push loops build exactly the model-major task list |
| Generate.BuildPrompt | scripts/generate.ts:61-82 | the prompt starts with the introduction, the title and the specification heading, contains the example's prompt and `output/index.html`, and ends with the closing text |
| Generate.FillRecoversPrompt | scripts/generate.ts:61-82 | for one title the template is injective in the prompt text |
| Generate.BuildPromptRecoversPrompt | scripts/generate.ts:61-82 | two examples with the same title and the same built prompt have the same prompt text |
| Generate.BuildCliCommand | scripts/generate.ts:88-134 | succeeds exactly for `claude`, `codex` and `gemini`; the program is the family, `--model` is followed by the model, the prompt is last; each family's fixed flags and argument count; any other family gives the `Unknown CLI type` error |
| Generate.RegistryCommandsBuild | scripts/generate.ts:131-132 | no registry entry reaches the throwing branch |
| Generate.GenerateWithPrompt | scripts/generate.ts:136-239 | skipped exactly when the file exists and the app is not forced (no sandbox, no process then); generated exactly when not skipped, the family is known, `mkdtemp`, `git init` and the `output` directory succeed, the process exits 0, the output exists and is copied; a sandbox exists exactly when the task is not skipped and `mkdtemp` succeeds; the process is spawned exactly when the sandbox is ready and the family is known; a spawned run is always cleaned up; the sandbox is left behind exactly when `git init` or `mkdir` fails or the family is unknown (lines 136-140, 151-199, 205-239) |
| Generate.TallyBump | scripts/generate.ts:331 | counting one more outcome adds one to its own counter only |
| Generate.TallySum | scripts/generate.ts:311-331 | the three counters of a list of outcomes sum to its length (lines 311-315, 331) |
| Generate.InFlightRemove | scripts/generate.ts:349-351 | the `splice` removes one task's outcome from the pool's bag and keeps the pool below the admitted tasks |
| Generate.Admit | scripts/generate.ts:352 | the pool grows by the next task, and every admitted task stays counted or in flight |
| Generate.Settle | scripts/generate.ts:349-355 | one completion leaves the pool one shorter and counts its outcome, keeping every admitted task counted or in flight (lines 349-351, 355) |
| Generate.RunPool | scripts/generate.ts:346-358 | the final counts are the tally of all outcomes, and the pool never holds more than the concurrency limit |
| Generate.Outcomes | scripts/generate.ts:326-331 | one outcome per task |
| Generate.Run | scripts/generate.ts:241-358 | the counts are the tally of the outcomes of every (target, example) task under the parsed options, so they sum to targets times examples; no more than the parsed concurrency tasks run at once, and at least one when there is a task |
| CodeExamples.Strings | lib/code-examples.ts:34 | the string elements of a list: a string is kept exactly when it is an element, no more elements than the list |
| CodeExamples.StringsAppend | lib/code-examples.ts:34 | the string filter distributes over concatenation, so it keeps list order |
| CodeExamples.StringsOfStrings | lib/code-examples.ts:34 | a list of strings only is kept whole |
| CodeExamples.ToStringArray | lib/code-examples.ts:31-36 | a result exactly for a list value (falsy and non-list values give none), holding exactly the list's strings |
| CodeExamples.ToBool | lib/code-examples.ts:37-39 | a result exactly for a boolean value, and then that boolean |
| CodeExamples.ToCodeExample | lib/code-examples.ts:42-60 | id, title, prompt, camera and microphone are copied; tags default to the empty list; the poster is the CDN base, `/`, the id and `.png`, and the iframe URL is `/` and the id (with lib/code-examples.ts:27-28) |
| CodeExamples.DerivedUrlsDetermineId | lib/code-examples.ts:27-55 | the poster URL and the iframe URL each determine the id (lines 27-28, 54-55) |
| CodeExamples.Slug | lib/code-examples.ts:74 | a trailing `.yaml` or `.yml` in any case is removed, and any other name is kept |
| CodeExamples.SlugStripsExtension | lib/code-examples.ts:74 | the slug of a name plus any spelling of `.yaml`/`.yml` is the name |
| CodeExamples.TitleOf | lib/code-examples.ts:76-79 | a title exists exactly when `title` or `name` is a non-empty string, and `title` wins |
| CodeExamples.Normalize | lib/code-examples.ts:68-94 | an example exactly when the file reads and parses, has a title and a non-empty string prompt; its id and iframe URL come from the slug of the file name, not from the YAML `id` |
| CodeExamples.Accepted | lib/code-examples.ts:68-95 | at most one example per file |
| CodeExamples.AcceptedMembers | lib/code-examples.ts:68-95 | an example is accepted exactly when some file normalises to it; unreadable files are skipped |
| CodeExamples.Insert | lib/code-examples.ts:97 | inserting adds exactly that element |
| CodeExamples.InsertSorted | lib/code-examples.ts:97 | inserting into a title-sorted list keeps it sorted, for any total order |
| CodeExamples.SortByTitle | lib/code-examples.ts:97 | the sorted list is a permutation of the input |
| CodeExamples.SortByTitleSorted | lib/code-examples.ts:97 | the result is sorted by title under the comparator |
| CodeExamples.LoadApps | lib/code-examples.ts:66-98 | the loop pushes exactly the accepted examples, then the result is sorted by title and a permutation of them |
| CodeExamples.LoadAppsFrom | lib/code-examples.ts:62-99 | a result exactly when the YAML walk completes, and then the sorted accepted examples of the files it found |
| Fs.Entry | lib/load-yaml.ts:7-9 | a found entry is in the listing and has the name; none when no entry has it |
| Fs.DirNames | scripts/fix-nextjs-paths.mjs:98-100 | exactly the names of the directories in the listing |
| Fs.Write | scripts/fix-nextjs-apps.mjs:13 | `writeFile` replaces that file's contents and logs one write of it |
| Fs.Disk.ReadFile | scripts/fix-nextjs-apps.mjs:10 | `readFile`: the contents, or nothing for a file that cannot be read |
| Fs.Disk.WriteFile | scripts/fix-nextjs-apps.mjs:13 | the disk after the write is the written state |
| Fs.WalkEntriesAppend | lib/load-yaml.ts:8-35 | walking a listing is walking its first part, then its rest unless the first part stopped: results follow listing order, depth first |
| Fs.WalkEntriesStops | lib/load-yaml.ts:7 | after a listing throws nothing more is gathered |
| Fs.WalkEntriesBelow | lib/load-yaml.ts:9 | every reported path lies below the start directory |
| Fs.WalkEntriesSound | lib/load-yaml.ts:10-34 | every reported path leads through entered directories to an accepted entry that is not a directory |
| Fs.WalkEntriesComplete | lib/load-yaml.ts:10-34 | a walk that reaches the end reports every accepted non-directory entry reached through entered directories |
| Fs.Collect | scripts/fix-nextjs-apps.mjs:23-60 | the recursive walk with its entry loop gathers exactly the walk function's files, and `ok` says whether all listings worked |
| LoadYaml.YamlFilesSound | lib/load-yaml.ts:10-33 | every returned path names a file whose lower-cased name ends in `.yaml` or `.yml` and is not below a skipped directory |
| LoadYaml.YamlFilesComplete | lib/load-yaml.ts:6-37 | every such YAML file outside the skipped directories is returned when no listing failed |
| LoadYaml.SkippedDirectoryIgnored | lib/load-yaml.ts:12-25 | a directory on the skip list adds nothing, whatever it holds |
| LoadYaml.YamlCollector.Walk | lib/load-yaml.ts:6-36 | `walk` appends exactly the walk function's files to `results`, and reports a failed listing |
| LoadYaml.LoadYamlFiles | lib/load-yaml.ts:4-39 | a result exactly when the walk completes, and then exactly the walk's files in walk order |
| AppGrid.RowCount | components/app-grid.tsx:74 | always between 3 and 8: exactly 3 for up to 16 apps, `ceil(n / 8)` for 17 to 64 apps, and exactly 8 above 64 |
| AppGrid.Deal | components/app-grid.tsx:75 | exactly `ROWS` rows |
| AppGrid.DivModUnique | components/app-grid.tsx:76 | quotient and remainder pin down Euclidean division, used because `i % ROWS` picks the row |
| AppGrid.DivModStep | components/app-grid.tsx:76 | stepping `i` by one steps `i % ROWS`, wrapping to 0 and carrying into the quotient |
| AppGrid.RowLength | components/app-grid.tsx:75-76 | row r holds `n / ROWS` apps plus one when `r < n % ROWS`, that is `ceil((n - r) / ROWS)` |
| AppGrid.RowElement | components/app-grid.tsx:76 | the k-th app of row r is the app at index `r + k * ROWS`, so rows keep input order |
| AppGrid.UnionOfEmpties | components/app-grid.tsx:75 | freshly allocated rows hold nothing |
| AppGrid.UnionUpdate | components/app-grid.tsx:76 | one `push` adds exactly one app to the rows' contents |
| AppGrid.DealSnoc | components/app-grid.tsx:76 | dealing one more app extends only row `i % ROWS` |
| AppGrid.DealIsPartition | components/app-grid.tsx:75-76 | together the rows hold every app exactly once |
| AppGrid.RowsBalanced | components/app-grid.tsx:75-76 | row lengths differ by at most one, earlier rows being longer |
| AppGrid.RowEmpty | components/app-grid.tsx:75-87 | a row is empty exactly when there are no more apps than its index (lines 75-76, 87) |
| AppGrid.Buckets | components/app-grid.tsx:73-78 | the array has `ROWS` rows, and the `forEach` push leaves exactly the round-robin deal in it |
| AppGrid.ViewOf | components/app-grid.tsx:84-91 | an empty row shows every app; a row scrolls in reverse exactly when its index is odd; its duration is `18 + 2 * (i mod 4)`, one of 18, 20, 22, 24 |
| GridRouting.ParseView | front-end/components/app-grid-with-routing.tsx:43-45 | a view exactly for `side-by-side` or `tabs`, and then the one so spelled |
| GridRouting.AllowlistRegistered | front-end/components/app-grid-with-routing.tsx:37-46 | every id on the hard-coded list is a registry id (lines 37, 46) |
| GridRouting.StripTrailingSlashes | front-end/components/app-grid-with-routing.tsx:21 | removes exactly the run of trailing slashes, all of them |
| GridRouting.SegmentPrefix | front-end/components/app-grid-with-routing.tsx:22 | the longest slash-free prefix |
| GridRouting.CompareSegment | front-end/components/app-grid-with-routing.tsx:22-25 | a match is a non-empty slash-free segment right after `/compare/`; no match exactly when the path does not start with `/compare/` or the segment there is empty |
| GridRouting.StripSlashes | front-end/components/app-grid-with-routing.tsx:21 | any number of trailing slashes after a segment are removed |
| GridRouting.CompareSegmentOf | front-end/components/app-grid-with-routing.tsx:21-25 | `/compare/<id>` with any trailing slashes reads as `<id>` |
| GridRouting.FindApp | front-end/components/app-grid-with-routing.tsx:26 | a found app has the id and no earlier app has it (the first match, as `find` returns); none exactly when no app has it |
| GridRouting.KeepAllowed | front-end/components/app-grid-with-routing.tsx:36-38 | an id is in the result exactly when it was given and is on the six-id list; nothing is added |
| GridRouting.NewModels | front-end/components/app-grid-with-routing.tsx:35-42 | the models cell is unchanged or becomes a non-empty list of allowed ids |
| GridRouting.NewTab | front-end/components/app-grid-with-routing.tsx:46-48 | the tab cell is unchanged or becomes the given, allowed tab |
| GridRouting.Parsed | front-end/components/app-grid-with-routing.tsx:20-53 | a path without a `/compare/<seg>` match changes nothing; a newly selected app is one of the apps whose id is the segment |
| GridRouting.UnknownAppIgnored | front-end/components/app-grid-with-routing.tsx:26-28 | an id matching no app leaves all four cells unchanged |
| GridRouting.ParsedAllowed | front-end/components/app-grid-with-routing.tsx:35-48 | from cells whose models are non-empty and allowed and whose tab is allowed, parsing any URL keeps them so |
| GridRouting.KeepAllowedNone | front-end/components/app-grid-with-routing.tsx:36-39 | a list with no allowed id filters to nothing |
| GridRouting.BadParametersIgnored | front-end/components/app-grid-with-routing.tsx:35-48 | a missing or unusable `models`, `view` or `tab` leaves its own cell unchanged |
| GridRouting.Opened | front-end/components/app-grid-with-routing.tsx:71-79 | a click other than a plain left click changes nothing; a plain click selects the app with allowed defaults |
| GridRouting.DecodePlain | front-end/components/app-grid-with-routing.tsx:30 | text without `+` or `%` decodes to itself |
| GridRouting.PlainPiece | front-end/components/app-grid-with-routing.tsx:30 | a plain `name=value` piece reads as that pair |
| GridRouting.ParseTwoPlain | front-end/components/app-grid-with-routing.tsx:30 | a query of two plain pairs reads as those two pairs in order |
| GridRouting.DefaultQueryParams | front-end/components/app-grid-with-routing.tsx:91 | the card link's query reads as `models=gpt-5,opus-4.5` and `view=side-by-side` |
| GridRouting.DefaultModelsParam | front-end/components/app-grid-with-routing.tsx:35-91 | the card link's models value filters to the default models (lines 35-38, 91) |
| GridRouting.HrefAgreesWithClick | front-end/components/app-grid-with-routing.tsx:71-91 | for an app the registry finds by an id a browser keeps as it is in a path (`UrlSafeId`), the card link is `/compare/<id>` plus the default query, and loading it on a fresh page gives the same cells as a plain click on the card (lines 71-79, 91) |
| GridRouting.PathSelects | front-end/components/app-grid-with-routing.tsx:24-51 | once the path names a known app, only the query decides the cells |
| GridRouting.DefaultParamsApplied | front-end/components/app-grid-with-routing.tsx:35-50 | the default query on the initial state selects the app with the default models, side by side, and the default tab |
| GridRouting.Router.constructor | front-end/components/app-grid-with-routing.tsx:13-16 | no app selected, models `gpt-5, opus-4.5`, side by side, tab `gpt-5` |
| GridRouting.Router.ParseUrl | front-end/components/app-grid-with-routing.tsx:20-53 | the cells after `parseUrl` are the parse of the old cells |
| GridRouting.Router.ReadQuery | front-end/components/app-grid-with-routing.tsx:30-50 | each cell is set only by a usable parameter, then the app is selected |
| GridRouting.Router.PopState | front-end/components/app-grid-with-routing.tsx:58-65 | back to exactly `/` closes the view and changes nothing else; any other path is parsed again |
| GridRouting.Router.OpenApp | front-end/components/app-grid-with-routing.tsx:71-79 | the cells after a click are `Opened` of the old cells |
| GridRouting.Router.Close | front-end/components/app-grid-with-routing.tsx:81-83 | closing clears only the selected app |
| GridRouting.ShownTagsAsWritten | front-end/components/app-grid-with-routing.tsx:126-130 | at most three labels, the first three tags in order (the comma flag as written uses the first index of the tag) |
| GridRouting.RepeatedTagTrailingComma | front-end/components/app-grid-with-routing.tsx:128 | for the tags `a, b, a` the third label shown still carries a comma |
| GridRouting.ShownTags | front-end/components/app-grid-with-routing.tsx:126-130 | at most three labels, the first tags in order, each but the last shown one followed by a comma |
| GridRouting.ShownTagsAgree | front-end/components/app-grid-with-routing.tsx:128 | with distinct tags the rule as written and the intended rule agree |
| GridRouting.MoreTags | front-end/components/app-grid-with-routing.tsx:131-133 | a `+N` badge exactly when there are more than three tags, and shown plus N is the number of tags |
| UrlQuery.HexValueOfDigit | front-end/components/app-comparison-view.tsx:46-50 | the digit written for a nibble reads back as that nibble |
| UrlQuery.PercentByte | front-end/components/app-comparison-view.tsx:50 | an escape is `%` and two hexadecimal digits |
| UrlQuery.Utf8 | front-end/components/app-comparison-view.tsx:50 | one to four bytes, each below 256 |
| UrlQuery.PercentBytes | front-end/components/app-comparison-view.tsx:50 | three characters per byte, all `%` or hexadecimal digits |
| UrlQuery.EncodeChar | front-end/components/app-comparison-view.tsx:50 | a character is written as itself, `+` or an escape |
| UrlQuery.EncodeAlphabet | front-end/components/app-comparison-view.tsx:50 | an encoding uses only `+`, `%`, hexadecimal digits and the unreserved characters |
| UrlQuery.DecodeEncodeChar | front-end/components/app-comparison-view.tsx:46-50 | the encoding of one ASCII character decodes to it, whatever follows (with front-end/components/app-grid-with-routing.tsx:30-33) |
| UrlQuery.DecodeEncode | front-end/components/app-comparison-view.tsx:46-50 | decoding undoes encoding on ASCII text (with front-end/components/app-grid-with-routing.tsx:30-33) |
| UrlQuery.EncodeFree | front-end/components/app-comparison-view.tsx:50 | an encoded name or value holds no `&`, `=` or `?` |
| UrlQuery.Pieces | front-end/components/app-comparison-view.tsx:50 | one `name=value` piece per pair, in order |
| UrlQuery.ParsePieces | front-end/components/app-grid-with-routing.tsx:30 | never more pairs than pieces |
| UrlQuery.Get | front-end/components/app-grid-with-routing.tsx:31-33 | none exactly when no pair has the name; otherwise the value of the first pair that has it |
| UrlQuery.GetCons | front-end/components/app-grid-with-routing.tsx:31-33 | `get` answers from the first pair when it has the name, otherwise from the rest |
| UrlQuery.ParsePieceOfPiece | front-end/components/app-comparison-view.tsx:50 | an ASCII pair's piece reads back as the pair (with front-end/components/app-grid-with-routing.tsx:30) |
| UrlQuery.PieceNotEmpty | front-end/components/app-comparison-view.tsx:50 | a piece is never empty, so no pair is dropped on reading |
| UrlQuery.ParsePiecesOfPieces | front-end/components/app-comparison-view.tsx:50 | the pieces of ASCII pairs read back as those pairs (with front-end/components/app-grid-with-routing.tsx:30) |
| UrlQuery.PiecesCons | front-end/components/app-grid-with-routing.tsx:30 | the first piece is read on its own, before the rest |
| UrlQuery.SplitSerialized | front-end/components/app-comparison-view.tsx:50 | splitting a non-empty query at `&` gives back its pieces (with front-end/components/app-grid-with-routing.tsx:30) |
| UrlQuery.PieceHead | front-end/components/app-comparison-view.tsx:50 | a piece does not start with `?` |
| UrlQuery.SerializedHead | front-end/components/app-comparison-view.tsx:50 | a query string does not start with `?` |
| UrlQuery.ParseSerialize | front-end/components/app-comparison-view.tsx:46-50 | reading back a query of ASCII pairs, with or without its leading `?`, gives exactly the pairs that were set (with front-end/components/app-grid-with-routing.tsx:30) |
| ComparisonView.SwapPrefix | front-end/components/app-comparison-view.tsx:9-11 | in `bg-<hue>-500` the first `bg-` replaced is the prefix |
| ComparisonView.Darken | front-end/components/app-comparison-view.tsx:9-11 | the first `-500` replaced is the suffix when no `5` comes before it (lines 9, 11) |
| ComparisonView.PaletteOfShade | front-end/components/app-comparison-view.tsx:7-12 | for `bg-<hue>-500`, hover and text use `-600` of the same hue, the border `-500` |
| ComparisonView.RegistryHues | lib/models.config.ts:18-75 | the eight registry colours are `bg-<hue>-500` for the eight hues, in order |
| ComparisonView.RegistryColors | front-end/components/app-comparison-view.tsx:7 | every model the view lists has a colour `bg-<hue>-500` with a hue of letters |
| ComparisonView.RegistryPalettes | front-end/components/app-comparison-view.tsx:7-12 | every model of the registry gets its hue's `-600` hover and text classes and `-500` border class |
| ComparisonView.Remove | front-end/components/app-comparison-view.tsx:87 | the same elements with every copy of the id gone (as multisets), nothing else |
| ComparisonView.ToggleAsWritten | front-end/components/app-comparison-view.tsx:83-91 | an absent id is appended; a present id is removed unless the selection has length one |
| ComparisonView.ToggleAsWrittenEmpties | front-end/components/app-comparison-view.tsx:86-87 | `?models=<id>,<id>` gives the selection `[id, id]`, and toggling that id then leaves nothing selected (with front-end/components/app-grid-with-routing.tsx:35-38) |
| ComparisonView.Toggle | front-end/components/app-comparison-view.tsx:83-91 | never empty; an absent id is appended; a present one is removed, and kept only when the selection holds nothing else |
| ComparisonView.ToggleAgrees | front-end/components/app-comparison-view.tsx:86 | the two toggles agree exactly except on a selection of two or more copies of the id alone |
| ComparisonView.ToggleTwice | front-end/components/app-comparison-view.tsx:83-91 | toggling an absent id twice gives the selection back |
| ComparisonView.RemoveAppend | front-end/components/app-comparison-view.tsx:87 | filtering distributes over concatenation |
| ComparisonView.RemoveAbsent | front-end/components/app-comparison-view.tsx:87 | filtering out an absent id changes nothing |
| ComparisonView.UiIds | front-end/components/app-comparison-view.tsx:93 | the ids of the models, one per model, in order |
| ComparisonView.SelectAllIsRegistry | front-end/components/app-comparison-view.tsx:93 | "All" selects the registry's ids in registry order |
| ComparisonView.QueryParams | front-end/components/app-comparison-view.tsx:46-49 | `models` is the comma-joined selection, `view` the mode's name, and `tab` is present exactly in tabs mode |
| ComparisonView.UpdateUrl | front-end/components/app-comparison-view.tsx:44-52 | no address while closed; otherwise one starting `/compare/<app>?` |
| ComparisonView.Location | front-end/components/app-comparison-view.tsx:51 | path and search put together are the address, and the search is empty or starts with `?` |
| ComparisonView.JoinAscii | front-end/components/app-comparison-view.tsx:47 | the comma-joined ids are ASCII text |
| ComparisonView.ModelsReadBack | front-end/components/app-comparison-view.tsx:47 | the `models` value written reads back as the allowed ids of the selection, or the previous list when none is allowed (with front-end/components/app-grid-with-routing.tsx:35-41) |
| ComparisonView.LocationOf | front-end/components/app-comparison-view.tsx:50-51 | the address splits at the `?` that starts the query |
| ComparisonView.QueryParsed | front-end/components/app-comparison-view.tsx:46-50 | the query written reads back as the parameters it was built from (with front-end/components/app-grid-with-routing.tsx:30-33) |
| ComparisonView.QueryApplied | front-end/components/app-grid-with-routing.tsx:35-50 | reading those parameters selects the app and sets each cell from its own parameter |
| ComparisonView.ReloadRestores | front-end/components/app-comparison-view.tsx:44-52 | for an app whose id a browser keeps as it is in a path, reloading the address written opens the same app with the allowed part of the selection, the same view and, in tabs mode, the same allowed tab (with front-end/components/app-grid-with-routing.tsx:20-53) |
| ComparisonView.ReloadRestoresSelection | front-end/components/app-comparison-view.tsx:44-52 | for such an app, a non-empty selection of allowed models with an allowed tab is restored exactly (with front-end/components/app-grid-with-routing.tsx:20-53) |
| ComparisonView.KeepAllowedAppend | front-end/components/app-grid-with-routing.tsx:37 | the allowlist filter distributes over concatenation |
| ComparisonView.AllowlistOmits | front-end/components/app-grid-with-routing.tsx:37 | `gpt-5.2` and `gemini-3-flash` may not be named in a URL |
| ComparisonView.SelectAllCount | front-end/components/app-comparison-view.tsx:93 | "All" selects eight models |
| ComparisonView.SelectAllAllowed | front-end/components/app-comparison-view.tsx:93 | after "All", the link reopens with exactly the allowlisted ids (with front-end/components/app-grid-with-routing.tsx:37) |
| ComparisonView.SelectAllUnlisted | front-end/components/app-comparison-view.tsx:93 | "All" includes `gpt-5.2` and `gemini-3-flash`, which a shared link drops |
| ComparisonView.Frames | front-end/components/app-comparison-view.tsx:205-233 | one frame in tabs mode; side by side one frame per selected model, and for slash-free ids two frames share a source exactly when they show the same model |
| ComparisonView.FrameSourceInjective | front-end/components/app-comparison-view.tsx:209-232 | two slash-free models share a frame source exactly when they are the same (lines 209, 232) |
| ComparisonView.FramesDistinct | front-end/components/app-comparison-view.tsx:209-232 | over a whole selection of slash-free ids, two frame sources are equal exactly when their models are (lines 209, 232) |
| ComparisonView.Comparison.constructor | front-end/components/app-comparison-view.tsx:23-33 | the cells start from the props; a non-empty selection of registry ids starts valid |
| ComparisonView.Comparison.SyncProps | front-end/components/app-comparison-view.tsx:37-41 | new props replace the three cells; a non-empty selection of registry ids leaves the view valid |
| ComparisonView.Comparison.ToggleModel | front-end/components/app-comparison-view.tsx:83-91 | the selection becomes its corrected toggle (see Findings) and nothing else changes; a valid selection stays valid for a registered id |
| ComparisonView.Comparison.SelectAll | front-end/components/app-comparison-view.tsx:93 | the selection becomes every registry id, which is valid |
| ComparisonView.Comparison.SetViewMode | front-end/components/app-comparison-view.tsx:148-158 | only the view mode changes (lines 148, 158) |
| ComparisonView.Comparison.PickModel | front-end/components/app-comparison-view.tsx:175 | a model button sets the tab in tabs mode and applies the corrected toggle (see Findings) side by side, keeping a valid selection valid |
| Text.Interleave | scripts/fix-nextjs-apps.mjs:11 | splitting at the empty string and joining puts `r` between every two characters: text of at most one character is unchanged, the length grows by `|r|` per gap, and the i-th character sits at position i·(|r|+1) |
| Text.IndexOf | scripts/fix-nextjs-paths.mjs:35-36 | the first position where the text occurs, or -1 exactly when it does not occur |
| Text.Position | scripts/generate.ts:257-264 | `indexOf` on an array of strings: -1 exactly when absent, otherwise the first index holding it (with front-end/components/app-grid-with-routing.tsx:128) |
| Text.PositionAfter | scripts/generate.ts:257-264 | the first occurrence of a token is the one after a prefix without it |
| Text.Split | front-end/components/app-grid-with-routing.tsx:36 | `split` always gives at least one piece |
| Text.ToLower | scripts/fix-nextjs-apps.mjs:33 | same length, each ASCII capital lowered, everything else kept (with lib/load-yaml.ts:29) |
| Text.ReplaceAllAbsent | scripts/fix-nextjs-apps.mjs:11 | split-and-join changes nothing when the search text does not occur |
| Text.ReplaceAllChangedOccurs | scripts/fix-nextjs-apps.mjs:12 | a changed file held the search text |
| Text.ReplaceAllFront | scripts/fix-nextjs-apps.mjs:11 | a leading occurrence becomes the replacement, then the rest is rewritten |
| Text.ReplaceAllSkipsFree | scripts/fix-nextjs-apps.mjs:11 | text without the search text's first character is kept as it is |
| Text.PrefixSurvives | scripts/fix-nextjs-apps.mjs:11 | a prefix free of the replacement's first character was there before the rewrite |
| Text.ReplaceAllRemoves | scripts/fix-nextjs-apps.mjs:11 | when the pattern and its replacement cannot overlap to rebuild it, no occurrence is left |
| Text.ReplaceAllPreservesAbsence | scripts/fix-nextjs-apps.mjs:11 | a replacement that cannot start or complete another text does not introduce it |
| Text.ReplaceFirstOnlyFirst | scripts/fix-nextjs-paths.mjs:35-36 | replacing by a string touches only the first of two occurrences |
| Text.ReplaceFirstAfterFree | scripts/fix-nextjs-paths.mjs:35-36 | the first occurrence after text that cannot hold one is the one replaced (with front-end/components/app-comparison-view.tsx:9-11) |
| Text.ReplaceFirstAbsent | scripts/fix-nextjs-paths.mjs:35-36 | replacing an absent string changes nothing |
| Text.JoinSplit | scripts/fix-nextjs-apps.mjs:11 | joining the pieces of a split with the separator gives the text back |
| Text.SplitPiecesFree | front-end/components/app-grid-with-routing.tsx:36 | no piece of a split holds the separator |
| Text.SplitJoin | front-end/components/app-comparison-view.tsx:47 | splitting the join of separator-free pieces gives the pieces back (with front-end/components/app-grid-with-routing.tsx:36) |
| Text.FirstSeparator | front-end/components/app-comparison-view.tsx:50 | the first separator is the one after a separator-free prefix |
| Text.SeparatedPrefix | front-end/components/app-comparison-view.tsx:209-232 | two texts split at their first separator agree exactly when both halves agree (lines 209, 232) |
| Rewrite.ApplyTableSnoc | scripts/fix-nextjs-comprehensive.mjs:49-55 | one more entry is one more replace-all on the text so far, and raises the flag exactly when it changes that text |
| Rewrite.NoChangeKeeps | scripts/fix-nextjs-comprehensive.mjs:49-57 | with the flag down the text is unchanged, so a changed text is always written |
| Rewrite.ApplyTableAppend | scripts/fix-nextjs-comprehensive.mjs:49-55 | running two tables one after the other is running their concatenation |
| Rewrite.ApplyTableAllAbsent | scripts/fix-nextjs-comprehensive.mjs:49-55 | a table none of whose search strings occurs leaves the text alone and the flag down |
| Rewrite.ApplyTableOnlyStep | scripts/fix-nextjs-comprehensive.mjs:49-55 | when only one entry finds anything, before it and in its result, the table's result is that entry's result |
| Rewrite.NoQuotedOccurrence | scripts/fix-nextjs-comprehensive.mjs:30-47 | a quoted path can occur in text with one leading quote and an inert rest only at the start |
| Rewrite.InertFree | scripts/fix-nextjs-comprehensive.mjs:30-47 | text where no quote is followed by `/` or `.` holds no search string of the tables |
| Rewrite.OtherQuoteAbsent | scripts/fix-nextjs-comprehensive.mjs:30-47 | an entry opening with another quote than the text's only quote finds nothing |
| Rewrite.InertTail | scripts/fix-nextjs-comprehensive.mjs:30-47 | inert text stays inert without its first character |
| Rewrite.NamesDiffer | scripts/fix-nextjs-comprehensive.mjs:32-46 | after a common prefix, a different slash-free name followed by `/` does not match |
| Rewrite.LastDot | scripts/fix-nextjs-apps.mjs:33 | the position of the last dot, or -1 without one |
| Rewrite.Extname | scripts/fix-nextjs-apps.mjs:33 | empty exactly for `..` and names without a dot after the first character; otherwise a suffix of the name from its last dot |
| Rewrite.ReplaceEach | scripts/fix-nextjs-apps.mjs:35-52 | the `replaceInFile` calls leave the file holding the table's result, `modified` is the table's flag, and only this file is written, once per changing entry; a file that cannot be read is left alone |
| Rewrite.RewriteFile | scripts/fix-nextjs-comprehensive.mjs:25-63 | the file ends up holding the table's result and is written once, exactly when some entry changed the buffer; a read that throws skips it |
| Rewrite.StylesAgree | scripts/fix-nextjs-apps.mjs:35-52 | per-call and buffered rewriting leave the same contents, the buffered one with no more writes (with scripts/fix-nextjs-comprehensive.mjs:25-60) |
| Rewrite.FixFiles | scripts/fix-nextjs-apps.mjs:23-60 | writes go only to files the walk reached, and every other file is left as it was |
| Rewrite.FixFilesSnoc | scripts/fix-nextjs-apps.mjs:26-58 | one more file reached is one more file rewritten |
| Rewrite.FixFilesApply | scripts/fix-nextjs-apps.mjs:23-60 | each readable file the walk reached once ends up holding the table applied to its old contents (with scripts/fix-nextjs-comprehensive.mjs:12-67) |
| Rewrite.FileStepContents | scripts/fix-nextjs-apps.mjs:35-52 | either style replaces only this file's contents, by the table's result (with scripts/fix-nextjs-comprehensive.mjs:25-63) |
| Rewrite.FixTreeWritesTextFiles | scripts/fix-nextjs-apps.mjs:23-34 | every file written lies below the directory, is reached through directories and is a text file by extension |
| Rewrite.RewriteFileOn | scripts/fix-nextjs-comprehensive.mjs:25-63 | the loop over the table leaves the disk as `RewriteFile` says |
| Rewrite.ReplaceInFileOn | scripts/fix-nextjs-apps.mjs:8-20 | read, replace every occurrence and write only when the text changed, reporting whether it did; a failed read reports false |
| Rewrite.ReplaceEachSnoc | scripts/fix-nextjs-apps.mjs:39-51 | one more `replaceInFile` call extends the run by one entry and ORs its result into the flag |
| Rewrite.ReplaceEachOn | scripts/fix-nextjs-apps.mjs:35-52 | the five calls on one file leave the disk and flag as `ReplaceEach` says |
| Rewrite.FileStepOn | scripts/fix-nextjs-apps.mjs:35-52 | one text file rewritten in the script's style (with scripts/fix-nextjs-comprehensive.mjs:25-63) |
| Rewrite.FixApp | scripts/fix-nextjs-apps.mjs:22-63 | the disk after the walk is every reached text file rewritten in order; the call rejects exactly when a listing throws (with scripts/fix-nextjs-comprehensive.mjs:8-70) |
| Rewrite.RunJobsStops | scripts/fix-nextjs-apps.mjs:65-85 | once one call rejects, the later calls change nothing (with scripts/fix-nextjs-comprehensive.mjs:72-90) |
| Rewrite.RunJobsSucceeds | scripts/fix-nextjs-apps.mjs:65-85 | `main` succeeds exactly when every call, made on the disk the earlier calls left, completes its walk (with scripts/fix-nextjs-comprehensive.mjs:72-90) |
| Rewrite.RunJobsOn | scripts/fix-nextjs-apps.mjs:65-85 | the awaited calls in order leave the disk and the exit status as `RunJobs` says (with scripts/fix-nextjs-comprehensive.mjs:72-90) |
| Rewrite.ScriptAppNames | scripts/fix-nextjs-apps.mjs:71-77 | the two app names are non-empty and free of quotes and `/`, and are neither `gpt-5` nor `_next` (with scripts/fix-nextjs-comprehensive.mjs:77-82) |
| Rewrite.NoSecondPrefix | scripts/fix-nextjs-comprehensive.mjs:32-44 | `"/gpt-5/<app>/_next/` matches neither the `"/<app>/` entry nor the `"/gpt-5/_next/` entry (lines 32, 35, 44) |
| Rewrite.BareNotApp | scripts/fix-nextjs-comprehensive.mjs:32-44 | a bare `"/gpt-5/_next/` is not taken for a reference to the app (lines 32, 35, 44) |
| Rewrite.BareSingleNotApp | scripts/fix-nextjs-comprehensive.mjs:33-45 | a bare `'/gpt-5/_next/` is not taken for a reference to the app (lines 33, 36, 45) |
| Rewrite.NoSecondPrefixSingle | scripts/fix-nextjs-comprehensive.mjs:33-45 | `'/gpt-5/<app>/_next/` matches none of the single-quoted app and `_next` entries (lines 33, 36, 45) |
| Rewrite.FaviconNotApp | scripts/fix-nextjs-comprehensive.mjs:35-40 | an absolute `"/favicon.ico"` is not a reference to the app (lines 35, 40) |
| Rewrite.FaviconSingleNotApp | scripts/fix-nextjs-comprehensive.mjs:36-41 | an absolute `'/favicon.ico'` is not a reference to the app (lines 36, 41) |
| Rewrite.BareBackNotApp | scripts/fix-nextjs-comprehensive.mjs:34-46 | a bare `` `/gpt-5/_next/ `` is not taken for a reference to the app (lines 34, 37, 46) |
| Rewrite.NoSecondPrefixBack | scripts/fix-nextjs-comprehensive.mjs:34-46 | `` `/gpt-5/<app>/_next/ `` matches none of the backquoted app and `_next` entries (lines 34, 37, 46) |
| AppRoots.RootEntry | scripts/fix-nextjs-apps.mjs:39-41 | the search string is the quote, `/`, the app name and `/` (with front-end/scripts/fix-nextjs-apps.mjs:36-38) |
| AppRoots.RootEntries | scripts/fix-nextjs-apps.mjs:39-41 | three entries with non-empty search strings, one per quote style (with front-end/scripts/fix-nextjs-apps.mjs:36-38) |
| AppRoots.NamesQuoteFree | scripts/fix-nextjs-apps.mjs:72-77 | the app names and prefixes the scripts are called with hold no quote (lines 72, 77; with front-end/scripts/fix-nextjs-apps.mjs:66, 71) |
| AppRoots.RootRemoved | scripts/fix-nextjs-apps.mjs:39-49 | an entry leaves no reference to the app's root in its own quote style (lines 39-41, 47-49; with front-end/scripts/fix-nextjs-apps.mjs:36-38) |
| AppRoots.RootKeptAbsent | scripts/fix-nextjs-apps.mjs:39-49 | an entry for another quote style does not bring such a reference back (lines 39-41, 47-49; with front-end/scripts/fix-nextjs-apps.mjs:36-38) |
| AppRoots.RootsGone | scripts/fix-nextjs-apps.mjs:39-49 | after the three entries no reference to the app's root is left, in any quote style, whatever the file held (lines 39-41, 47-49; with front-end/scripts/fix-nextjs-apps.mjs:36-38) |
| AppRoots.RootMoved | scripts/fix-nextjs-apps.mjs:39-49 | a root reference followed by inert text moves to the target and keeps its quote (lines 39-41, 47-49; with front-end/scripts/fix-nextjs-apps.mjs:36-38) |
| AppRoots.EntryQuotes | scripts/fix-nextjs-apps.mjs:39-41 | past its opening quote neither side of an entry holds a quote, and both open with the same quote (with front-end/scripts/fix-nextjs-apps.mjs:36-38) |
| AppRoots.OtherEntryAbsent | scripts/fix-nextjs-apps.mjs:39-41 | neither a reference nor its moved form matches the entry of another quote style (with front-end/scripts/fix-nextjs-apps.mjs:36-38) |
| AppRoots.FaviconEntries | scripts/fix-nextjs-apps.mjs:42-51 | two quoted-path entries, for double and single quotes (lines 42-43, 50-51; with front-end/scripts/fix-nextjs-apps.mjs:45-46) |
| AppRoots.FaviconsMissMoved | scripts/fix-nextjs-apps.mjs:42-51 | a moved root reference is not taken for a favicon reference (lines 42-43, 50-51; with front-end/scripts/fix-nextjs-apps.mjs:45-46) |
| AppRoots.RootMovedThrough | scripts/fix-nextjs-apps.mjs:39-51 | a root reference survives the favicon entries once moved (with front-end/scripts/fix-nextjs-apps.mjs:36-46) |
| AppRoots.RootMissesFavicon | scripts/fix-nextjs-apps.mjs:39-43 | no quote-free app name makes a root entry of any quote style match a favicon reference whose closing quote and tail are inert (lines 39-43; with front-end/scripts/fix-nextjs-apps.mjs:36-38) |
| AppRoots.RootsMissFavicon | scripts/fix-nextjs-apps.mjs:39-41 | none of the three root entries matches such a favicon reference (with front-end/scripts/fix-nextjs-apps.mjs:36-38) |
| AppRoots.OtherFaviconMiss | scripts/fix-nextjs-apps.mjs:42-51 | the favicon entry of the other quote style misses a favicon reference before and after its move (lines 42-43, 50-51; with front-end/scripts/fix-nextjs-apps.mjs:45-46) |
| AppRoots.FaviconStep | scripts/fix-nextjs-apps.mjs:42-51 | the entry of a favicon reference's own quote style moves it below the target (lines 42-43, 50-51; with front-end/scripts/fix-nextjs-apps.mjs:45-46) |
| AppRoots.FaviconMoved | scripts/fix-nextjs-apps.mjs:42-51 | the favicon entries turn `q/favicon.icoq` into `q<target>/favicon.icoq`, for `q` a double or single quote (lines 42-43, 50-51; with front-end/scripts/fix-nextjs-apps.mjs:45-46) |
| AppRoots.FaviconMovedThrough | scripts/fix-nextjs-apps.mjs:39-51 | so do the root entries and the favicon entries together (with front-end/scripts/fix-nextjs-apps.mjs:36-46) |
| FixApps.Target | scripts/fix-nextjs-apps.mjs:37-46 | `.` in relative mode, otherwise `/<prefix>/<app>`, quote-free when its parts are |
| FixApps.Table | scripts/fix-nextjs-apps.mjs:37-52 | five entries with non-empty search strings |
| FixApps.RelativeTargetGood | scripts/fix-nextjs-apps.mjs:39-43 | in relative mode every quote-free app name gives a usable target |
| FixApps.RootReferenceMoved | scripts/fix-nextjs-apps.mjs:37-52 | in either mode a root reference followed by inert text moves to the target, keeping its quote |
| FixApps.FaviconReferenceMoved | scripts/fix-nextjs-apps.mjs:37-52 | in either mode a double- or single-quoted `/favicon.ico` moves below the target in the same quotes (`./favicon.ico` in relative mode, lines 42-43; `/<prefix>/<app>/favicon.ico` in full mode, lines 50-51) |
| FixApps.NoRootLeft | scripts/fix-nextjs-apps.mjs:37-52 | after the table no root reference is left, and the favicon entries run on the result of the root entries |
| FixApps.Jobs | scripts/fix-nextjs-apps.mjs:65-78 | two calls, each with the full-path table for the app directory it walks |
| FixApps.TargetDiffers | scripts/fix-nextjs-apps.mjs:46 | a prefix that differs from the app name at some position gives a target that does not rebuild the root |
| FixApps.AsteroidTargetGood | scripts/fix-nextjs-apps.mjs:72 | the `asteroid-game` call has a usable target |
| FixApps.EspressoTargetGood | scripts/fix-nextjs-apps.mjs:77 | the `espresso` call has a usable target |
| FixApps.RunScript | scripts/fix-nextjs-apps.mjs:65-85 | the script leaves the disk and exit status of the two calls run in order with per-call writes |
| FrontEndFixApps.NextEntries | front-end/scripts/fix-nextjs-apps.mjs:41-42 | two entries with non-empty search strings |
| FrontEndFixApps.Table | front-end/scripts/fix-nextjs-apps.mjs:36-46 | seven entries with non-empty search strings |
| FrontEndFixApps.NextEntriesDead | front-end/scripts/fix-nextjs-apps.mjs:36-42 | the two `_next` entries never change anything, because the root entries already moved every such reference; the table does what it does without them |
| FrontEndFixApps.RootReferenceMoved | front-end/scripts/fix-nextjs-apps.mjs:36-46 | a root reference followed by inert text moves below the target prefix, keeping its quote |
| FrontEndFixApps.FaviconReferenceMoved | front-end/scripts/fix-nextjs-apps.mjs:36-46 | a double- or single-quoted `/favicon.ico` moves below the target prefix in the same quotes (lines 45-46) |
| FrontEndFixApps.Jobs | front-end/scripts/fix-nextjs-apps.mjs:59-72 | two calls, each with the table for `/openai/<app>` |
| FrontEndFixApps.AsteroidTargetGood | front-end/scripts/fix-nextjs-apps.mjs:66 | the `asteroid-game` call has a usable target |
| FrontEndFixApps.EspressoTargetGood | front-end/scripts/fix-nextjs-apps.mjs:71 | the `espresso` call has a usable target |
| FrontEndFixApps.RunScript | front-end/scripts/fix-nextjs-apps.mjs:59-79 | the script leaves the disk and exit status of the two calls run in order with per-call writes |
| FixComprehensive.Table | scripts/fix-nextjs-comprehensive.mjs:30-47 | eleven entries, every search string a non-empty quoted path |
| FixComprehensive.OtherQuotesMiss | scripts/fix-nextjs-comprehensive.mjs:30-47 | the entries of other quote styles miss `"/gpt-5/<app>/_next/` followed by inert text |
| FixComprehensive.SameQuoteMiss | scripts/fix-nextjs-comprehensive.mjs:35-44 | neither the `"/<app>/`, the favicon nor the `"/gpt-5/_next/` entry finds `"/gpt-5/<app>/_next/` again (lines 35, 40, 44) |
| FixComprehensive.NextPathPrefixedOnce | scripts/fix-nextjs-comprehensive.mjs:30-55 | `"/<app>/_next/` gets the `/gpt-5` prefix exactly once |
| FixComprehensive.BareNextMiss | scripts/fix-nextjs-comprehensive.mjs:32-41 | the entries before the `"/gpt-5/_next/` entry miss a bare `"/gpt-5/_next/` |
| FixComprehensive.BareNextSameQuoteMiss | scripts/fix-nextjs-comprehensive.mjs:32-40 | the double-quoted entries before it miss a bare `"/gpt-5/_next/` (lines 32, 35, 40) |
| FixComprehensive.BareNextOtherQuoteMiss | scripts/fix-nextjs-comprehensive.mjs:33-41 | the entries of other quote styles before it miss a bare `"/gpt-5/_next/` |
| FixComprehensive.BareNextGetsApp | scripts/fix-nextjs-comprehensive.mjs:44-55 | a pre-existing `"/gpt-5/_next/` followed by inert text becomes `"/gpt-5/<app>/_next/` (lines 44, 49-55) |
| FixComprehensive.BareSingleMiss | scripts/fix-nextjs-comprehensive.mjs:32-44 | the entries before the `'/gpt-5/_next/` entry miss a bare `'/gpt-5/_next/` |
| FixComprehensive.BareSingleSameQuoteMiss | scripts/fix-nextjs-comprehensive.mjs:33-41 | the single-quoted entries before it miss a bare `'/gpt-5/_next/` (lines 33, 36, 41) |
| FixComprehensive.BareSingleOtherQuoteMiss | scripts/fix-nextjs-comprehensive.mjs:32-44 | the entries of other quote styles before it miss a bare `'/gpt-5/_next/` |
| FixComprehensive.StrayQuote | scripts/fix-nextjs-comprehensive.mjs:45-55 | as written, `'/gpt-5/_next/` becomes `'/gpt-5/<app>/_next/'`, with a stray `'` before whatever followed (lines 45, 49-55) |
| FixComprehensive.StrayStep | scripts/fix-nextjs-comprehensive.mjs:45 | that entry alone produces the stray quote |
| FixComprehensive.StrayAfter | scripts/fix-nextjs-comprehensive.mjs:46 | the last, backquoted entry leaves that result alone |
| FixComprehensive.SingleNextPrefixedOnce | scripts/fix-nextjs-comprehensive.mjs:33-55 | `'/<app>/_next/` gets the `/gpt-5` prefix exactly once and no stray quote (lines 33, 49-55) |
| FixComprehensive.SingleNextSameQuoteMiss | scripts/fix-nextjs-comprehensive.mjs:36-45 | the later single-quoted entries miss `'/gpt-5/<app>/_next/` (lines 36, 41, 45) |
| FixComprehensive.SingleNextOtherQuoteMiss | scripts/fix-nextjs-comprehensive.mjs:34-46 | so do the later entries of other quote styles |
| FixComprehensive.BackNextPrefixedOnce | scripts/fix-nextjs-comprehensive.mjs:34-55 | `` `/<app>/_next/ `` gets the `/gpt-5` prefix exactly once (lines 34, 49-55) |
| FixComprehensive.BackNextMissAfter | scripts/fix-nextjs-comprehensive.mjs:35-46 | every entry after it misses `` `/gpt-5/<app>/_next/ `` |
| FixComprehensive.BareBackGetsApp | scripts/fix-nextjs-comprehensive.mjs:46-55 | a pre-existing `` `/gpt-5/_next/ `` becomes `` `/gpt-5/<app>/_next/ `` (lines 46, 49-55) |
| FixComprehensive.BareBackSameQuoteMiss | scripts/fix-nextjs-comprehensive.mjs:34-37 | the backquoted app entries before it miss a bare `` `/gpt-5/_next/ `` (lines 34, 37) |
| FixComprehensive.BareBackOtherQuoteMiss | scripts/fix-nextjs-comprehensive.mjs:32-45 | so do the entries of other quote styles before it |
| FixComprehensive.AppRootEarlyMiss | scripts/fix-nextjs-comprehensive.mjs:32-34 | the `_next` entries miss a root reference `"/<app>/` that does not go on with `_next/` |
| FixComprehensive.AppRootLateMiss | scripts/fix-nextjs-comprehensive.mjs:36-46 | the entries after it miss `"/gpt-5/<app>/` |
| FixComprehensive.AppRootOtherQuoteMiss | scripts/fix-nextjs-comprehensive.mjs:36-46 | the later entries of other quote styles miss it (lines 36, 37, 41, 45, 46) |
| FixComprehensive.AppRootPrefixed | scripts/fix-nextjs-comprehensive.mjs:35-55 | `"/<app>/` not followed by `_next/` gets the `/gpt-5` prefix exactly once (lines 35, 49-55) |
| FixComprehensive.SingleRootEarlyMiss | scripts/fix-nextjs-comprehensive.mjs:32-35 | the entries ahead of `'/<app>/` miss a root reference that does not go on with `_next/` |
| FixComprehensive.SingleRootLateMiss | scripts/fix-nextjs-comprehensive.mjs:37-46 | the entries after it miss `'/gpt-5/<app>/` |
| FixComprehensive.SingleRootOtherQuoteMiss | scripts/fix-nextjs-comprehensive.mjs:37-46 | the later entries of other quote styles miss it (lines 37, 40, 44, 46) |
| FixComprehensive.SingleRootPrefixed | scripts/fix-nextjs-comprehensive.mjs:36-55 | `'/<app>/` not followed by `_next/` gets the `/gpt-5` prefix exactly once, with no stray quote (lines 36, 49-55) |
| FixComprehensive.BackRootEarlyMiss | scripts/fix-nextjs-comprehensive.mjs:32-36 | the entries ahead of `` `/<app>/ `` miss a root reference that does not go on with `_next/` |
| FixComprehensive.BackRootLateMiss | scripts/fix-nextjs-comprehensive.mjs:40-46 | the entries after it miss `` `/gpt-5/<app>/ `` |
| FixComprehensive.BackRootPrefixed | scripts/fix-nextjs-comprehensive.mjs:37-55 | `` `/<app>/ `` not followed by `_next/` gets the `/gpt-5` prefix exactly once (lines 37, 49-55) |
| FixComprehensive.FaviconEarlyMiss | scripts/fix-nextjs-comprehensive.mjs:32-37 | the entries ahead of `"/favicon.ico"` miss it; the `"/<app>/` entries do not take it for the app |
| FixComprehensive.FaviconLateMiss | scripts/fix-nextjs-comprehensive.mjs:41-46 | the entries after it miss `"/gpt-5/<app>/favicon.ico"` |
| FixComprehensive.FaviconPrefixed | scripts/fix-nextjs-comprehensive.mjs:40-55 | `"/favicon.ico"` becomes `"/gpt-5/<app>/favicon.ico"` and stays so (lines 40, 49-55) |
| FixComprehensive.SingleFaviconEarlyMiss | scripts/fix-nextjs-comprehensive.mjs:32-40 | the entries ahead of `'/favicon.ico'` miss it; the `'/<app>/` entries do not take it for the app |
| FixComprehensive.SingleFaviconLateMiss | scripts/fix-nextjs-comprehensive.mjs:44-46 | the entries after it miss `'/gpt-5/<app>/favicon.ico'` |
| FixComprehensive.SingleFaviconPrefixed | scripts/fix-nextjs-comprehensive.mjs:41-55 | `'/favicon.ico'` becomes `'/gpt-5/<app>/favicon.ico'` and stays so (lines 41, 49-55) |
| FixComprehensive.Jobs | scripts/fix-nextjs-comprehensive.mjs:72-82 | two calls, below `out/apps/gpt-5`, each with the table for its own app name |
| FixComprehensive.RunScript | scripts/fix-nextjs-comprehensive.mjs:72-90 | the script leaves the disk and exit status of the two calls run in order with buffered writes |
| FixAbsolutePaths.Table | front-end/scripts/fix-nextjs-absolute-paths.mjs:30-54 | sixteen entries, every search string a non-empty quoted path |
| FixAbsolutePaths.NextOtherQuotesMiss | front-end/scripts/fix-nextjs-absolute-paths.mjs:33-41 | the early entries of other quote styles miss `"/gpt-5/<app>/_next/` followed by inert text |
| FixAbsolutePaths.NextOtherQuotesMissLate | front-end/scripts/fix-nextjs-absolute-paths.mjs:42-53 | the later entries of other quote styles miss it too |
| FixAbsolutePaths.NextSameQuoteMiss | front-end/scripts/fix-nextjs-absolute-paths.mjs:37-40 | the double-quoted app entries do not find it again (lines 37, 40) |
| FixAbsolutePaths.NextSameQuoteMissLate | front-end/scripts/fix-nextjs-absolute-paths.mjs:45-51 | nor do the double-quoted favicon and `"/gpt-5/_next/` entries (lines 45, 47, 51) |
| FixAbsolutePaths.NextMissAll | front-end/scripts/fix-nextjs-absolute-paths.mjs:37-53 | no entry after the third finds `"/gpt-5/<app>/_next/` |
| FixAbsolutePaths.RelativeNextAbsolute | front-end/scripts/fix-nextjs-absolute-paths.mjs:32-62 | `"./_next/` followed by inert text becomes `"/gpt-5/<app>/_next/`, and nothing after changes it (lines 32, 56-62) |
| FixAbsolutePaths.AppNextAbsolute | front-end/scripts/fix-nextjs-absolute-paths.mjs:37-62 | `"/<app>/_next/` gets the `/gpt-5` prefix exactly once (lines 37, 56-62) |
| FixAbsolutePaths.SingleOtherQuotesMiss | front-end/scripts/fix-nextjs-absolute-paths.mjs:34-42 | the early entries of other quote styles miss `'/gpt-5/<app>/_next/` |
| FixAbsolutePaths.SingleOtherQuotesMissLate | front-end/scripts/fix-nextjs-absolute-paths.mjs:42-53 | the later entries of other quote styles miss it too |
| FixAbsolutePaths.SingleSameQuoteMiss | front-end/scripts/fix-nextjs-absolute-paths.mjs:38-52 | the single-quoted entries after the first do not find it |
| FixAbsolutePaths.SinglePathsMiss | front-end/scripts/fix-nextjs-absolute-paths.mjs:38-52 | the single-quoted app and `_next` entries do not find it (lines 38, 41, 52) |
| FixAbsolutePaths.SingleFaviconsMiss | front-end/scripts/fix-nextjs-absolute-paths.mjs:46-48 | the single-quoted favicon entries do not find it (lines 46, 48) |
| FixAbsolutePaths.RelativeSingleStrayQuote | front-end/scripts/fix-nextjs-absolute-paths.mjs:33-62 | as written, `'./_next/` becomes `'/gpt-5/<app>/_next/'`, with a stray `'` before whatever followed (lines 33, 56-62) |
| FixAbsolutePaths.SingleNextMissAfter | front-end/scripts/fix-nextjs-absolute-paths.mjs:34-53 | every entry after the first two misses `'/gpt-5/<app>/_next/'` and the text after it |
| FixAbsolutePaths.AppNextSingleEarlyMiss | front-end/scripts/fix-nextjs-absolute-paths.mjs:32-37 | the entries ahead of `'/<app>/_next/` miss it |
| FixAbsolutePaths.AppNextSingleStrayQuote | front-end/scripts/fix-nextjs-absolute-paths.mjs:32-62 | as written, `'/<app>/_next/` becomes `'/gpt-5/<app>/_next/'`, with a stray `'` before whatever followed (lines 32-38, 56-62) |
| FixAbsolutePaths.AppRootSingleEarlyMiss | front-end/scripts/fix-nextjs-absolute-paths.mjs:32-40 | the entries ahead of `'/<app>/` miss a root reference that does not go on with `_next/` |
| FixAbsolutePaths.AppRootSingleLateMiss | front-end/scripts/fix-nextjs-absolute-paths.mjs:46-52 | the single-quoted entries after it miss `'/gpt-5/<app>/'` (lines 46, 48, 52) |
| FixAbsolutePaths.AppRootSingleLateOtherMiss | front-end/scripts/fix-nextjs-absolute-paths.mjs:42-53 | so do the later entries of other quote styles |
| FixAbsolutePaths.AppRootSingleStrayQuote | front-end/scripts/fix-nextjs-absolute-paths.mjs:41-62 | as written, `'/<app>/` not followed by `_next/` becomes `'/gpt-5/<app>/'`, with a stray `'` (lines 41, 56-62) |
| FixAbsolutePaths.GptNextSingleAppMiss | front-end/scripts/fix-nextjs-absolute-paths.mjs:38-41 | the single-quoted app entries ahead of `'/gpt-5/_next/` miss it: `gpt-5` is not the app (lines 38, 41) |
| FixAbsolutePaths.GptNextSingleSameQuoteMiss | front-end/scripts/fix-nextjs-absolute-paths.mjs:33-48 | nor do the single-quoted `./_next` and favicon entries (lines 33, 46, 48) |
| FixAbsolutePaths.GptNextSingleOtherQuoteMiss | front-end/scripts/fix-nextjs-absolute-paths.mjs:32-51 | the entries of other quote styles ahead of it miss it |
| FixAbsolutePaths.GptNextSingleStrayQuote | front-end/scripts/fix-nextjs-absolute-paths.mjs:52-62 | as written, `'/gpt-5/_next/` becomes `'/gpt-5/<app>/_next/'`, with a stray `'` (lines 52, 56-62) |
| FixAbsolutePaths.RelativeSingleFaviconSameQuoteMiss | front-end/scripts/fix-nextjs-absolute-paths.mjs:33-41 | the single-quoted entries ahead of `'./favicon.ico'` miss it (lines 33, 38, 41) |
| FixAbsolutePaths.SingleFaviconOtherQuoteMiss | front-end/scripts/fix-nextjs-absolute-paths.mjs:32-47 | the entries of other quote styles ahead of them miss both single-quoted favicon references |
| FixAbsolutePaths.AbsoluteSingleFaviconSameQuoteMiss | front-end/scripts/fix-nextjs-absolute-paths.mjs:33-46 | the single-quoted entries ahead of `'/favicon.ico'` miss it; the `'/<app>/` entries do not take it for the app (lines 33, 38, 41, 46) |
| FixAbsolutePaths.SingleFaviconTargetMiss | front-end/scripts/fix-nextjs-absolute-paths.mjs:48-52 | the later single-quoted entries miss `'/gpt-5/<app>/favicon.ico'` (lines 48, 52) |
| FixAbsolutePaths.SingleFaviconTargetOtherMiss | front-end/scripts/fix-nextjs-absolute-paths.mjs:47-53 | nor do the later entries of other quote styles |
| FixAbsolutePaths.RelativeSingleFavicon | front-end/scripts/fix-nextjs-absolute-paths.mjs:46-62 | `'./favicon.ico'` becomes `'/gpt-5/<app>/favicon.ico'` and stays so (lines 46, 56-62) |
| FixAbsolutePaths.AbsoluteSingleFavicon | front-end/scripts/fix-nextjs-absolute-paths.mjs:48-62 | `'/favicon.ico'` becomes `'/gpt-5/<app>/favicon.ico'` and stays so (lines 48, 56-62) |
| FixAbsolutePaths.FaviconTargetMiss | front-end/scripts/fix-nextjs-absolute-paths.mjs:47-51 | the rewritten favicon path is not found by the later double-quoted entries (lines 47, 51) |
| FixAbsolutePaths.FaviconTargetOtherMiss | front-end/scripts/fix-nextjs-absolute-paths.mjs:46-53 | nor by the later entries of other quote styles |
| FixAbsolutePaths.RelativeFaviconSameQuoteMiss | front-end/scripts/fix-nextjs-absolute-paths.mjs:32-40 | the double-quoted `_next` and app entries miss `"./favicon.ico"` (lines 32, 37, 40) |
| FixAbsolutePaths.AbsoluteFaviconSameQuoteMiss | front-end/scripts/fix-nextjs-absolute-paths.mjs:32-45 | the double-quoted entries before its own miss `"/favicon.ico"` (lines 32, 37, 40, 45) |
| FixAbsolutePaths.FaviconOtherQuoteMiss | front-end/scripts/fix-nextjs-absolute-paths.mjs:33-46 | the entries of other quote styles miss both double-quoted favicon references |
| FixAbsolutePaths.RelativeFavicon | front-end/scripts/fix-nextjs-absolute-paths.mjs:45-62 | `"./favicon.ico"` becomes `"/gpt-5/<app>/favicon.ico"` and stays so (lines 45, 56-62) |
| FixAbsolutePaths.AbsoluteFavicon | front-end/scripts/fix-nextjs-absolute-paths.mjs:47-62 | `"/favicon.ico"` becomes `"/gpt-5/<app>/favicon.ico"` and stays so (lines 47, 56-62) |
| FixAbsolutePaths.AppRootEarlyMiss | front-end/scripts/fix-nextjs-absolute-paths.mjs:32-39 | the entries ahead of `"/<app>/` miss a root reference that does not go on with `_next/` |
| FixAbsolutePaths.AppRootSameQuoteMiss | front-end/scripts/fix-nextjs-absolute-paths.mjs:45-51 | the later double-quoted entries miss `"/gpt-5/<app>/` (lines 45, 47, 51) |
| FixAbsolutePaths.AppRootOtherQuoteMiss | front-end/scripts/fix-nextjs-absolute-paths.mjs:41-53 | so do the later entries of other quote styles |
| FixAbsolutePaths.AppRootAbsolute | front-end/scripts/fix-nextjs-absolute-paths.mjs:40-62 | `"/<app>/` not followed by `_next/` gets the `/gpt-5` prefix exactly once (lines 40, 56-62) |
| FixAbsolutePaths.GptNextSameQuoteMiss | front-end/scripts/fix-nextjs-absolute-paths.mjs:32-47 | the double-quoted entries ahead of `"/gpt-5/_next/` miss a bare one: `gpt-5` is not the app (lines 32, 37, 40, 45, 47) |
| FixAbsolutePaths.GptNextOtherQuoteMiss | front-end/scripts/fix-nextjs-absolute-paths.mjs:33-48 | so do the entries of other quote styles ahead of it |
| FixAbsolutePaths.GptNextOtherQuoteMissLate | front-end/scripts/fix-nextjs-absolute-paths.mjs:41-48 | the later half of those (lines 41, 42, 46, 48) |
| FixAbsolutePaths.GptNextGetsApp | front-end/scripts/fix-nextjs-absolute-paths.mjs:51-62 | a pre-existing `"/gpt-5/_next/` becomes `"/gpt-5/<app>/_next/` and stays so (lines 51, 56-62) |
| FixAbsolutePaths.BackNextSameQuoteMiss | front-end/scripts/fix-nextjs-absolute-paths.mjs:39-53 | the backquoted entries after `` `./_next/ `` miss `` `/gpt-5/<app>/_next/ `` (lines 39, 42, 53) |
| FixAbsolutePaths.BackNextOtherQuoteMiss | front-end/scripts/fix-nextjs-absolute-paths.mjs:37-52 | so do the entries of other quote styles after it |
| FixAbsolutePaths.BackRelativeNextAbsolute | front-end/scripts/fix-nextjs-absolute-paths.mjs:34-62 | `` `./_next/ `` becomes `` `/gpt-5/<app>/_next/ `` and stays so (lines 34, 56-62) |
| FixAbsolutePaths.BackAppNextAbsolute | front-end/scripts/fix-nextjs-absolute-paths.mjs:39-62 | `` `/<app>/_next/ `` gets the `/gpt-5` prefix exactly once (lines 39, 56-62) |
| FixAbsolutePaths.BackRootEarlyMiss | front-end/scripts/fix-nextjs-absolute-paths.mjs:32-41 | the entries ahead of `` `/<app>/ `` miss a root reference that does not go on with `_next/` |
| FixAbsolutePaths.BackRootLateMiss | front-end/scripts/fix-nextjs-absolute-paths.mjs:45-53 | the entries after it miss `` `/gpt-5/<app>/ `` |
| FixAbsolutePaths.BackRootAbsolute | front-end/scripts/fix-nextjs-absolute-paths.mjs:42-62 | `` `/<app>/ `` not followed by `_next/` gets the `/gpt-5` prefix exactly once (lines 42, 56-62) |
| FixAbsolutePaths.BackGptNextSameQuoteMiss | front-end/scripts/fix-nextjs-absolute-paths.mjs:34-42 | the backquoted entries ahead of `` `/gpt-5/_next/ `` miss a bare one (lines 34, 39, 42) |
| FixAbsolutePaths.BackGptNextOtherQuoteMiss | front-end/scripts/fix-nextjs-absolute-paths.mjs:32-52 | so do the entries of other quote styles ahead of it |
| FixAbsolutePaths.BackGptNextGetsApp | front-end/scripts/fix-nextjs-absolute-paths.mjs:53-62 | a pre-existing `` `/gpt-5/_next/ `` becomes `` `/gpt-5/<app>/_next/ `` (lines 53, 56-62) |
| FixAbsolutePaths.Jobs | front-end/scripts/fix-nextjs-absolute-paths.mjs:79-89 | two calls, below `out/gpt-5`, each with the table for its own app name |
| FixAbsolutePaths.RunScript | front-end/scripts/fix-nextjs-absolute-paths.mjs:79-97 | the script leaves the disk and exit status of the two calls run in order with buffered writes |
| FixPaths.StripAppRemoves | scripts/fix-nextjs-paths.mjs:31-32 | after the two global replaces no `"/<app>/` or `'/<app>/` is left |
| FixPaths.FaviconOnlyFirst | scripts/fix-nextjs-paths.mjs:35-36 | only the first favicon reference is made relative; a second one stays absolute |
| FixPaths.JsRewriteMatched | scripts/fix-nextjs-paths.mjs:70-76 | `modified` is set exactly when `"/<app>/` or `'/<app>/` occurs |
| FixPaths.DoubleQuoteFront | scripts/fix-nextjs-paths.mjs:71-74 | a leading `"/<app>/` becomes `"./`, as in the HTML pass |
| FixPaths.SingleQuoteSkipped | scripts/fix-nextjs-paths.mjs:31-32 | the double-quote pass copies a leading `'/<app>/` through |
| FixPaths.SingleQuoteFront | scripts/fix-nextjs-paths.mjs:71-74 | a leading `'/<app>/` becomes `'./`, as in the HTML pass |
| FixPaths.NoMatchFront | scripts/fix-nextjs-paths.mjs:70-76 | any other first character is kept |
| FixPaths.JsRewriteIsStripApp | scripts/fix-nextjs-paths.mjs:31-76 | for a quote-free app name the one-pattern JS replace gives exactly the two-pass HTML replace (lines 31-32, 70-76) |
| FixPaths.JsRewriteUnmatched | scripts/fix-nextjs-paths.mjs:70-78 | without a match the text is unchanged, so nothing is written |
| FixPaths.HtmlStep | scripts/fix-nextjs-paths.mjs:24-42 | a page that cannot be read is skipped; otherwise it is rewritten and written, changed or not |
| FixPaths.JsFilesFrame | scripts/fix-nextjs-paths.mjs:57-86 | the JS pass writes only its own files and keeps every other file |
| FixPaths.JsFilesApply | scripts/fix-nextjs-paths.mjs:57-86 | each script reached once ends up holding the JS replace of its old contents |
| FixPaths.FixJsFiles | scripts/fix-nextjs-paths.mjs:55-90 | every write lies below the `_next` directory and everything outside it is kept; a listing that throws ends the pass quietly |
| FixPaths.JsTargetsBelow | scripts/fix-nextjs-paths.mjs:57-65 | every script the walk reaches lies below the directory walked |
| FixPaths.Pages | scripts/fix-nextjs-paths.mjs:22-43 | only `index.html` and `404.html` of the app are written |
| FixPaths.FixApp | scripts/fix-nextjs-paths.mjs:14-50 | only an app directory with `_next` is touched, and every write is inside it (only its two pages when the JS pass does not run) |
| FixPaths.AppPass | scripts/fix-nextjs-paths.mjs:21-46 | the pages and then the JS pass, writing only within the app |
| FixPaths.FixEntries | scripts/fix-nextjs-paths.mjs:11-52 | every write belongs to one entry of the model directory |
| FixPaths.FixModelsStops | scripts/fix-nextjs-paths.mjs:106-110 | once a model directory cannot be listed, `main` rejects and the later ones are not visited (with front-end/scripts/fix-nextjs-paths.mjs:92-114) |
| FixPaths.FixModelsSucceeds | scripts/fix-nextjs-paths.mjs:106-110 | `main` succeeds exactly when every model directory it visits can be listed (with front-end/scripts/fix-nextjs-paths.mjs:92-114) |
| FixPaths.FixModelsWrites | scripts/fix-nextjs-paths.mjs:106-110 | every write of `main` belongs to an app of a visited model directory, and is one of its two pages without the JS pass (with front-end/scripts/fix-nextjs-paths.mjs:92-114) |
| FixPaths.HtmlStepOn | scripts/fix-nextjs-paths.mjs:24-42 | reading and rewriting one page leaves the disk as `HtmlStep` says |
| FixPaths.JsFilesStops | scripts/fix-nextjs-paths.mjs:56-89 | a script that cannot be read ends the JS pass; later scripts are untouched |
| FixPaths.FixJsFilesOn | scripts/fix-nextjs-paths.mjs:55-90 | the JS pass on the disk is `FixJsFiles` |
| FixPaths.FixAppOn | scripts/fix-nextjs-paths.mjs:14-50 | one entry on the disk, with the JS pass running |
| FixPaths.FixNextJsPathsOn | scripts/fix-nextjs-paths.mjs:8-53 | `fixNextJsPaths` on the disk, rejecting when the model directory cannot be listed |
| FixPaths.FixModelsOn | scripts/fix-nextjs-paths.mjs:106-110 | the model directories in order, stopping at the first that rejects (with front-end/scripts/fix-nextjs-paths.mjs:92-114) |
| FixPaths.RunRootScript | scripts/fix-nextjs-paths.mjs:92-118 | a missing apps directory ends `main` successfully; otherwise every sub-directory is a model directory, in listing order |
| FixPaths.RunFrontEndScript | front-end/scripts/fix-nextjs-paths.mjs:92-122 | the four fixed model directories below `public`, in order |
| FixPaths.JsPassSkipped | scripts/fix-nextjs-paths.mjs:30-49 | as written the JS pass never runs: on a one-app tree whose script holds `"/a/x`, it is left as it was (lines 30, 46-49) |
| FixPaths.JsPassOnExample | scripts/fix-nextjs-paths.mjs:46-76 | with the call running the same script becomes `"./x` (lines 46, 70-76) |
| FixPaths.JsPassStripsApp | scripts/fix-nextjs-paths.mjs:46-86 | with the call running every script below `_next` ends up holding the HTML pass's two replaces of its old contents, so no root reference is left (lines 46, 57-86) |
| NextConfig.CompareInitial | next.config.ts:51 | the compare rule's path starts with `/c` |
| NextConfig.AppRule | next.config.ts:28-31 | an app rule is served from `<source>/index.html`, and its source lies below the root |
| NextConfig.ModelRules | next.config.ts:24-34 | a rule is pushed for an entry exactly when it is a directory holding `index.html` |
| NextConfig.Detect | next.config.ts:20-35 | every rule of the scan is served from its own `index.html` and lies below the root (with front-end/next.config.ts:12-30) |
| NextConfig.DetectCompletes | next.config.ts:20-38 | the scan reaches the end exactly when every model directory it comes to can be listed (or, where missing ones are skipped, is missing) (with front-end/next.config.ts:12-33) |
| NextConfig.DetectSound | next.config.ts:20-35 | every rule comes from an exported app of one of the model directories (with front-end/next.config.ts:12-30) |
| NextConfig.DetectComplete | next.config.ts:20-35 | a scan that reaches the end holds the rule of every exported app (with front-end/next.config.ts:12-30) |
| NextConfig.DetectPrefix | next.config.ts:20-38 | the rules pushed before a model directory are kept, because the `catch` returns what was pushed |
| NextConfig.DetectStops | next.config.ts:22-38 | once a listing throws, the later model directories add nothing (lines 22, 36-38) |
| NextConfig.RewritesShape | next.config.ts:46-55 | the compare rule comes first and no app rule shadows it; every other rule is `/apps/...` served from its `index.html` |
| NextConfig.RootDetectExact | next.config.ts:8-35 | when every model directory can be listed, the app rules are exactly those of the exported apps |
| NextConfig.NoAppsDir | next.config.ts:11-13 | without `public/apps` the table is the compare rule alone |
| NextConfig.DetectAppPaths | next.config.ts:5-41 | the two loops push exactly the scan's rules |
| NextConfig.PushModel | next.config.ts:22-34 | the entry loop appends the model directory's rules in listing order (with front-end/next.config.ts:16-28) |
| NextConfig.RewritesOf | next.config.ts:46-55 | `rewrites()` is the compare rule followed by the detected app rules |
| FrontEndNextConfig.ModelInitials | front-end/next.config.ts:10 | no configured model name starts with `c` |
| FrontEndNextConfig.RewritesShape | front-end/next.config.ts:41-50 | the compare rule comes first and no app rule shadows it; every other rule is `/<model>/<app>` for a configured model, served from its `index.html` |
| FrontEndNextConfig.AppRuleShape | front-end/next.config.ts:22-25 | one app rule is `/<model>/<app>` for a configured model and is not the compare rule |
| FrontEndNextConfig.FrontEndDetectExact | front-end/next.config.ts:12-30 | when every existing model directory can be listed, the app rules are exactly those of the exported apps; a missing model directory adds nothing |
| FrontEndNextConfig.DetectAppPaths | front-end/next.config.ts:5-36 | the loop over the five model directories pushes exactly the scan's rules |
| FrontEndNextConfig.RewritesOf | front-end/next.config.ts:41-50 | `rewrites()` is the compare rule followed by the detected app rules |

## Left out

- Process and file-system effects are parameters: an `Environment` per task for the generation script, and an abstract directory tree plus a content map for the scripts. These cover spawning a process, `git init`, temporary-directory randomness, copying, removing and `readdir`/`readFile`/`writeFile`. A failing write is not modelled, and every write succeeds.
- All `console` output, including the printed summary, is left out. In the fix scripts a `modified` flag that only chooses a log line is left out with it.
- The real `Promise.race`/`Promise.all` interleaving is not modelled. The pool is a sequential scheduler: which in-flight task completes next is a parameter, and only its admission rule and its counts are proved.
- `parseInt` skips the white space of the JavaScript grammar (the ASCII blanks, U+FEFF, U+2028, U+2029 and the Unicode space separators as of Unicode 15), takes an optional sign and reads ASCII decimal digits only. A space separator added to Unicode later is not modelled.
- `String.localeCompare` is a comparator parameter that is only required to be total. The sort is an insertion sort; the lemmas state that it yields a permutation sorted by title, not how it orders records of equal title.
- `toLowerCase` is modelled on ASCII letters only. Extensions and file names outside ASCII are not case-folded.
- `yaml.parse` output is an abstract record of values. A file that fails to read or parse is an absent record.
- `URLSearchParams` decoding is modelled on ASCII text. Percent-encoded bytes of non-ASCII UTF-8 are not decoded.
- The `new RegExp(..., "g")` patterns of the `fix-nextjs-paths.mjs` scripts are literal replace-alls, for app names that hold no regular-expression metacharacters.
- The fix scripts first collect the file list and then rewrite the files. This equals the interleaved walk, because rewriting a file never changes the directory tree.
- A symbolic link is an entry that is neither a directory nor a file (`Other`).
- A directory whose listing fails (`LockedDir`) makes a walk throw. The scripts' top-level catch then ends the run.
- The `prefix` parameter of `fixNextJsPaths` is never read, so the model drops it.
- FixPaths.RunRootScript runs the JS pass (`jsPass` true), as the script evidently intends; the script as written never reaches it (see Findings). The specification functions take the flag, and `FixPaths.JsPassSkipped` states the as-written setting.
- FixPaths.RunFrontEndScript runs the JS pass too, for the same reason.
- FixPaths.FixModelsOn runs the JS pass too, for the same reason.
- FixPaths.FixNextJsPathsOn runs the JS pass too, for the same reason.
- FixPaths.FixAppOn runs the JS pass too, for the same reason.
- ComparisonView.Comparison.ToggleModel applies the corrected `Toggle`, which keeps a selection that consists only of copies of the toggled id; the component as written empties it (see Findings, and `ComparisonView.ToggleAsWrittenEmpties`, `ComparisonView.ToggleAgrees` for exactly where the two differ).
- ComparisonView.Comparison.PickModel applies the same corrected `Toggle` side by side, for the same reason.
- `front-end/lib/models.ts` is not part of this model. The registry of `lib/models.config.ts` stands in for the models the comparison view lists.
- React rendering, hooks and effect scheduling, `window.history`, the escape key, body overflow, the clipboard copy button and timers are left out. The `Router` methods take the current path and query as arguments, and the address bar the `Comparison` class would write is the function `Url()` of its state.
- ComparisonView.Location splits an address at its first `?` as it stands. Percent-encoding of the path, a `#` fragment and the turning of `\` into `/` are not modelled, so the reload lemmas and `GridRouting.HrefAgreesWithClick` are stated for ids the browser keeps as they are (`GridRouting.UrlSafeId`: `*-._`, digits and ASCII letters, and not `.` or `..`).
- The floating-point card width, the copy scripts (`copy-docs.mjs`, both `post-build.mjs`) and the layouts and pages are left out, because they contain no logic beyond rendering and copying.

## Findings

| source | as written | input that shows it | evidently intended | confidence | as-written member | corrected member |
|---|---|---|---|---|---|---|
| front-end/components/app-grid-with-routing.tsx:128 | the comma after a shown tag depends on the first index of that tag's text, so a repeated tag puts a comma after the last shown tag | tags `a, b, a` | a comma after every shown tag but the last | not executed | GridRouting.RepeatedTagTrailingComma | GridRouting.ShownTags |
| front-end/components/app-comparison-view.tsx:85-87 | toggling a present id removes every copy, and keeps the selection only when it has length 1, so a selection that repeats an id can become empty | `?models=gpt-5,gpt-5`, then toggling `gpt-5` | the selection is never empty | not executed | ComparisonView.ToggleAsWrittenEmpties | ComparisonView.Toggle |
| scripts/fix-nextjs-paths.mjs:46 | `appName` is declared inside the page loop's block (line 30), so the call on line 46 throws a ReferenceError that line 48 swallows, and no JS file is rewritten | an app `a` whose `_next/a.js` holds `"/a/x` | `"/a/x` becomes `"./x` in the app's JS files | not executed | FixPaths.JsPassSkipped | FixPaths.JsPassStripsApp |
