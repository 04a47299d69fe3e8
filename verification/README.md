# WebDBG report pipeline, modelled in Dafny

WebDBG takes Windows crash dumps (`.dmp` files) and runs the console debugger
(`cdb.exe -z <dump> -c "k; !analyze -v ; q"`) on each one. It then cuts the
debugger's free-text report into a small record of three fields:

- `dmpInfo`: the header the debugger prints after its copyright banner.
- `analysis`: the `!analyze -v` section, with every line that contains an
  asterisk or the "Debugging Details:" label removed.
- `rawContent`: the unmodified report.

A separate post-processing step can enrich records that carry a bugcheck
code. It looks the code up in a table of debugger commands (`!devstack`),
runs the command, and stores its output in the record's `post` field. Two
command generators build full debugger command lines for bugchecks 0x9F and
0x133.

This project models that core as pure Dafny functions and two loop methods,
one per module:

| module | file | models |
|---|---|---|
| `Wrappers` | wrappers.dfy | `Option` and `Result` |
| `JsString` | js_string.dfy | the JavaScript string operations the code uses: `indexOf`, `includes`, `split` on a non-empty string, `join`, `trim`, `endsWith` |
| `JsArray` | js_array.dfy | `Array.prototype.filter` |
| `Report` | report.dfy | `processResult`: its anchors, its pieces and its three ways of throwing |
| `ReportProperties` | report_properties.dfy | what `processResult` guarantees about the record it builds |
| `Analyze` | analyze.dfy | `Analyze`: the target, the `.dmp` filter and the sequential loop |
| `PostProcess` | post_process.dfy | `bugcheckCommands`, `executeCommand`, `postProcessResults` |
| `Generators` | generators.dfy | the default exports of `post-processors/9f.js` and `post-processors/133.js` |

The file system, the debugger and `exec` are not modelled as I/O. They are
parameters the caller supplies:

- `Analyze.TargetKind`: whether `fs.statSync` throws, and otherwise whether the
  target is a directory and what `fs.readdirSync` lists in it.
- `Analyze.Host`: `path.resolve` and the debugger's standard output, given
  as a function of the dump path.
- `PostProcess.ExecOutcome`: what `exec` passes to its callback, given as a
  function of the command.

Exceptions and rejected promises become `Failure` values. `processResult`
throws in three ways:

- `Abnormal`: the piece count is neither 2 nor 3.
- `BannerMissing`: line 52 reads `.split` on an undefined second piece.
- `AnalysisHeadingMissing`: line 56 does the same.

`postProcessResults` throws in one way, `ArgsUndefined`.

## Model

| member | source | states |
|---|---|---|
| `JsString.IndexOf` | api/analyze.js:41-56 | the position found is an occurrence with no earlier one; none is found exactly when the text does not occur |
| `JsString.SplitLength` | api/analyze.js:41-42 | `split` yields one piece more than there are non-overlapping occurrences of the separator, and at least two pieces exactly when the separator occurs |
| `JsString.SplitJoin` | api/analyze.js:41-56 | joining the pieces of a `split` with the same separator gives back the original string |
| `JsString.SplitPiecesAvoidSeparator` | api/analyze.js:41-56 | no piece of a `split` contains the separator |
| `JsString.SplitPiecesAreInfixes` | api/analyze.js:41-56 | every piece of a `split` occurs in the string split |
| `JsString.SplitFirstPiece` | api/analyze.js:50-53 | piece 0 is the prefix before the first occurrence of the separator, or the whole string when there is none |
| `JsString.SplitSecondPiece` | api/analyze.js:51-52 | piece 1 is the text between the first and the second occurrence of the separator |
| `JsString.CountAcrossBlock` | api/analyze.js:41-42 | a pattern cannot straddle a block of characters it does not use, so the occurrences on either side add up |
| `JsString.JoinSplit` | api/analyze.js:56 | splitting, on a one-character separator, the join of strings free of that character gives back those strings |
| `JsString.Trim` | api/analyze.js:53 | `trim` removes exactly the leading and trailing whitespace: the result sits in the input between two all-whitespace runs and has no whitespace at either end |
| `JsString.TrimIdempotent` | api/analyze.js:53 | trimming an already trimmed string changes nothing |
| `JsArray.Filter` | api/analyze.js:56 | `filter` keeps exactly the elements that pass the test: every kept element passes and comes from the input, and every passing element is kept |
| `JsArray.FilterAppend` | api/analyze.js:79 | filtering keeps input order: filtering a concatenation is the concatenation of the filtered parts |
| `Report.Parse` | api/analyze.js:39-66 | a successful parse keeps the report unchanged as `rawContent`, and the report then has 2 or 3 pieces |
| `Report.FlatSplit` | api/analyze.js:42 | piece 0 of the `flatMap` is piece 0 of the first piece's split |
| `ReportProperties.PieceCount` | api/analyze.js:41-42 | the number of pieces is one more than the number of rules plus the number of stack markers in the report |
| `ReportProperties.AbnormalIff` | api/analyze.js:45-47 | the report is rejected as abnormal exactly when it holds neither one nor two anchors (rules and stack markers together) |
| `ReportProperties.EmptyReportIsAbnormal` | api/analyze.js:45-47 | an empty report is rejected as abnormal |
| `ReportProperties.FirstPieceIsTextBeforeFirstAnchor` | api/analyze.js:41-42 | piece 0 is the text before the first rule or stack marker, whichever comes first |
| `ReportProperties.BeforeFirstAnchorUnique` | api/analyze.js:41-42 | there is only one such text before the first anchor |
| `ReportProperties.TrailingTextIgnored` | api/analyze.js:41-56 | text appended after an anchor changes neither piece 0 nor, when both reports parse, the extracted `dmpInfo` and `analysis` |
| `ReportProperties.ParseOutcome` | api/analyze.js:45-56 | each outcome is characterised exactly: abnormal count, then the copyright banner missing before the first analysis heading, then the heading missing, and success otherwise |
| `ReportProperties.DmpInfoLocation` | api/analyze.js:50-53 | `dmpInfo` is the trimmed text that follows the first copyright banner, up to the next banner or "Loading Kernel Symbols"; without the latter it is all of that text, trimmed |
| `ReportProperties.DmpInfoShape` | api/analyze.js:50-53 | `dmpInfo` occurs in the report, is trimmed, and holds none of the five anchors |
| `ReportProperties.AnalysisLines` | api/analyze.js:56 | the kept lines joined with line breaks, before `trim`, split back into exactly those lines, in order |
| `ReportProperties.KeptLinesAvoid` | api/analyze.js:56 | a text absent from the analysis section is absent from every kept line |
| `ReportProperties.AnalysisShape` | api/analyze.js:56 | `analysis` is trimmed and holds no asterisk, no "Debugging Details:" label, no analysis heading, no rule and no stack marker |
| `ReportProperties.FlatSplitLength` | api/analyze.js:42 | the `flatMap` split yields one piece per input piece plus one per occurrence of the separator |
| `ReportProperties.CountOfJoin` | api/analyze.js:41-42 | the occurrences in the pieces add up to those in the whole when the first separator shares no character with the pattern |
| `Analyze.DumpFilesSelection` | api/analyze.js:79 | a directory's dumps are exactly its entries that end in ".dmp", in listing order |
| `Analyze.RunInOrder` | api/analyze.js:80-85 | the paths are processed one at a time and in order, and processing stops at the first failure; on success there is one result per path |
| `Analyze.ProcessDump` | api/analyze.js:75-76 | one dump succeeds exactly when its debugger output parses, and yields that parse or its error |
| `Analyze.Analyze` | api/analyze.js:69-89 | a missing target fails before any debugger run. A single file yields one record. Otherwise the records are the parses of the dumps, in resolution order; the first dump that fails to parse ends the run with its error, and no later dump is run |
| `PostProcess.Lookup` | api/post-process.js:18-22 | a table entry is found exactly for the codes "9f" and "7E", matched case-sensitively; "9f" finds the `args[1]` builder and "7E" the `args[0]` builder |
| `PostProcess.KeyedCommand` | api/post-process.js:18-20 | a record keyed "9f" runs `!devstack` on argument 1 and one keyed "7E" on argument 0, with "undefined" past the end |
| `PostProcess.BuildCommand` | api/post-process.js:19-20 | a command builder throws exactly when `args` is undefined; otherwise it gives `!devstack` followed by argument 1 for "9f" or argument 0 for "7E", with "undefined" past the end |
| `PostProcess.ExecuteCommand` | api/post-process.js:25-37 | it rejects with "Error: " and the message exactly when `exec` fails; it resolves with "Warnings: " and the error stream when that is non-empty, and with the standard output otherwise |
| `PostProcess.PostFor` | api/post-process.js:42-56 | one record's iteration throws exactly when it has a table entry but no `args`. Without a table entry it stores `null`. Otherwise it stores a string chosen by what `exec` reports for the record's command: "Error: " and the message when `exec` fails, "Warnings: " and the error stream when that is non-empty, and the standard output otherwise |
| `PostProcess.PostProcessResults` | api/post-process.js:40-61 | only `post` changes, and the array keeps its length. The call completes exactly when no record throws; then each `post` is its record's value, and the commands run are those of the records with a table entry, in record order. After a throw, the records before the thrower are processed with their commands run, and it and all later ones are untouched |
| `PostProcess.CommandsRunCount` | api/post-process.js:42-44 | one command runs for each record with a table entry |
| `PostProcess.UnclassifiedRecordsGetNull` | api/post-process.js:54-56 | a record without a bugcheck code gets `post` null and runs no command |
| `PostProcess.ExecOutcomeClassification` | api/post-process.js:30-31 | a command that writes to its error stream resolves with the warnings, whatever its standard output was |
| `PostProcess.TableAndGeneratorDisagreeOnShortArgs` | api/post-process.js:19 | with a single argument, the table's "9f" entry runs "!devstack undefined", while the 9f.js generator uses an empty argument |
| `Generators.DevstackArgument` | api/post-processors/9f.js:2-3 | the `!devstack` argument is the second argument when it exists and is non-empty, and the empty string otherwise |
| `Generators.Devstack9f` | api/post-processors/9f.js:2-4 | the command starts with the debugger path, ends with " ; q\"", and is exactly as long as its template parts |
| `Generators.Devstack9fDecodes` | api/post-processors/9f.js:4 | the debugger path, the dump path and the `!devstack` argument sit at fixed offsets, so they can be read back from the command |
| `Generators.Devstack9fUsesOnlySecondArg` | api/post-processors/9f.js:2-3 | the command depends on the arguments only through the second one; an omitted `args` behaves like an empty array |
| `Generators.DpcWatchdog133` | api/post-processors/133.js:2-3 | the command starts with the debugger path, ends with " ; q\"", and is exactly as long as its template parts |
| `Generators.DpcWatchdog133RunsWatchdog` | api/post-processors/133.js:2-3 | whatever the paths, the command runs `!dpcwatchdog` |
| `Generators.DpcWatchdog133Script` | api/post-processors/133.js:2-3 | the command runs `!dpcwatchdog` and, when neither path contains "!devstack", never `!devstack` |

### Behaviour worth noting

The model follows the code in each of these points:

- `infos[1]` is the text between the first and the second occurrence of
  "Bugcheck Analysis", not everything after the first one.
  `dirtyDmpInfo0[1]` likewise ends at a second copyright banner.
- `dmpInfo` may be the empty string. This happens when the symbols banner
  directly follows the copyright banner.
- `analysis` need not be a substring of the report: a dropped line between
  two kept lines is cut out. Each kept line is a substring of the report.
- Dumps in a directory are processed one after another. The first failure
  rejects the whole call.
- Bugcheck codes are matched as written, so "9F" finds no table entry.
- The records `Analyze` builds carry no `bugcheck` or `args`. Post-processing
  is not called from `Analyze`, and `PostProcess.UnclassifiedRecordsGetNull`
  states what it would do to such a record.

## Left out

- `processDmpObject` (api/analyze.js:20-36) is not modelled as a process run.
  Its result is the `Host.debugger` parameter. On an `exec` error the
  promise never settles, and this hang is not modelled. Warnings on the
  error stream are only logged, so they do not affect the result.
- `JSON.stringify` of the records (api/analyze.js:88) is left out. The model
  returns the sequence of records.
- Logging calls are left out, because they do not affect any result.
- The HTTP server, the upload handling and the web UI are outside this core.
- `PostProcess.Lookup` does not model keys inherited by JavaScript objects,
  such as "constructor", "toString" or "__proto__". Such a key would find
  a value that is not one of the two generators.
- String lengths and indices count Unicode scalar values, not UTF-16 code
  units. Every anchor is ASCII, so the pieces are the same.
- `split` is modelled for non-empty string separators only. These are the
  only separators the code uses.
- `Generators.DpcWatchdog133Script` requires that neither path contains
  "!devstack". A path that contains it would put that text into the command.
- `PostProcess.PostProcessResults` takes `exec` as a function of the command,
  so two records that run the same command get the same outcome. A real
  `exec` may answer the same command differently on two runs.
- `Analyze.Analyze` does not model a `fs.readdirSync` that throws, for
  example on a directory that exists but cannot be listed. `TargetKind` has
  no value for it.
