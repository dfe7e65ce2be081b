# melody core, modelled in Dafny

This project models the decision-making core of melody, a Go web and CLI framework. Version 1 lives at the repository root and version 2 under `v2/`. The browser helper `v2/.example/public/assets/app.js` is modelled too. The project proves properties of that model. Each core file of the source has one Dafny module:

| module | source | what it models |
|---|---|---|
| `Cache` | cache/in_memory.go | the in-memory backend: items with optional expiry in least-recently-used order, bounded by `maxItems`, with overflow-checked integer counters |
| `Router` | http/router.go | route registration into a segment tree, and request matching that picks the best accepted candidate and reports the allowed methods |
| `RouterUtility` | http/router_utility.go | path splitting, the method/host/scheme filters, path matching with parameters and catch-alls, middleware wrapping and scheme detection |
| `UrlGenerator` | v2/http/url_generator.go | `GeneratePath` from a named route's pattern and the query filter of `GenerateUrl` |
| `AccessControl` | security/access_control.go | rule constructors and the rule a path selects: exact, then longest prefix, then regular expression, then fallback |
| `AccessDecisionManager` | security/access_decision_manager.go | the affirmative, consensus and unanimous strategies over the voters' ballots, and `DecideAll`/`DecideAny` |
| `PipelineBuilder` | v2/http/middleware/pipeline/builder.go | middleware selection by environment and group, duplicate handling, and the ordering along "after"/"before" edges with cycle and missing-reference reports |
| `EventDispatcher` | event/event_dispatcher.go | listener lists kept in priority order, removal by id and by subscriber, and the dispatch loop |
| `RateLimit` | http/middleware/rate_limit.go | the token-bucket and sliding-window limiters and their periodic clean-up |
| `ValidationRule` | validation/validation_rule.go | the two comma splitters and the validation tag parser |
| `CommandContainer` | v2/debug/command_container.go | the debug command's text helpers: lower-casing, substring search, dropped keys, truncation, wrapping, line limits and pages |
| `TablePrinter` | v2/cli/output/table_printer.go | column widths, shrinking to a maximum width, cell wrapping and separator collapsing |
| `RuntimeFlags` | application/cli.go | the `-mode` flag: parsing, the mode choice and stripping the flag from the arguments |
| `ApplicationCli` | application/application_cli.go | command registration, `-v...v` normalisation and command suggestions |
| `Session` | v2/session/session.go | a session's values and its `modified`/`cleared` flags |
| `SessionManager` | session/manager.go | loading, creating, saving and deleting sessions over a map-modelled storage |
| `Bag` | v2/bag/string_slice.go | reading and appending string lists in a parameter bag |
| `EnvironmentSource` | v2/config/environment_source.go | dotenv pre-processing: comments, trailing space and blank lines |
| `Parse` | internal/parse.go | conversions of a configuration value to a boolean, an integer, a duration, a float or a string map |
| `ContainerClose` | v2/container/container_close.go | the dependents-first close order, cycle handling, closing each pointer once, and idempotent `Close` |
| `AppAssets` | v2/.example/public/assets/app.js | AJAX error and body normalisation, the `requestJson` options, route lookup and path-pattern substitution |

`Wrappers`, `Strings` and `Strconv` hold the shared pieces: `Option` and `Result` values, and the parts of Go's `strings`, `sort` and `strconv` packages and JavaScript's string methods that the core uses.

The source's code is followed where it is imperative. Objects whose methods update fields are classes: the cache backend, the router, the dispatcher, the pipeline builder, the limiters, the session and its manager, the bag, the container and the application. Loops are `while`/`for` loops with invariants. Each such method is proved against a specification function of the inputs or of the old state. The properties the source promises are then lemmas about those functions. Pure code is modelled as functions and lemmas.

Some modelling choices apply throughout:
- Panics are returned as error values.
- Clocks, random ids, regular expressions and library encoders are parameters.
- Dynamically typed values (`any`) are datatypes with the cases the code switches on.
- Times and durations are integer nanoseconds.

## Model

| member | source | states |
|---|---|---|
| Cache.NewItem | cache/in_memory.go:436-447 | an item expires exactly when the ttl is positive, then at now + ttl; it starts with last access now and no hits |
| Cache.IsExpiredAt | cache/in_memory.go:499-518 | expired iff the item has an expiry and the clock has reached it; no expiry never expires |
| Cache.WellformedSize | cache/in_memory.go:386-397 | in a well-formed store the entry map and the LRU list have the same size |
| Cache.DeleteKey | cache/in_memory.go:386-397 | removes exactly that key from the map, one element from the list when present, and keeps the store well formed |
| Cache.Touch | cache/in_memory.go:100-110 | a hit keeps the key set and moves the key to the front of the LRU list |
| Cache.LastExpiredIndex | cache/in_memory.go:464-485 | finds the expired entry nearest the back of the list among the first n, or reports that none is expired |
| Cache.VictimIndex | cache/in_memory.go:464-497 | the victim is the expired entry nearest the LRU end, or the last (least recent) entry when nothing is expired; none only for an empty cache |
| Cache.Evict | cache/in_memory.go:464-497 | removes exactly one entry from a non-empty store and changes no other entry |
| Cache.Upsert | cache/in_memory.go:424-462 | the key holds the fresh item and is the most recent one, and the store stays well formed |
| Cache.UpsertProperties | cache/in_memory.go:430-434 | an upsert keeps the store within maxItems, changes no other key, and evicts nothing when the key exists, there is room or maxItems is not positive |
| Cache.UpsertKeepsOthers | cache/in_memory.go:424-462 | every other key that survives the upsert keeps its item |
| Cache.Lookup | cache/in_memory.go:115-132 | a value is found iff the key is present and not expired, and it is the stored payload |
| Cache.LiveKeys | cache/in_memory.go:173-200 | the keys asked for that are present and not expired |
| Cache.TouchAll | cache/in_memory.go:212-224 | touching the hits keeps the key set, every payload and every expiry |
| Cache.ManyResult | cache/in_memory.go:173-226 | `Many` returns exactly the live keys asked for, each with its stored payload |
| Cache.DeleteAll | cache/in_memory.go:251-260 | deleting several keys removes exactly those keys, keeps every other item and filters them out of the list in order |
| Cache.UpsertAll | cache/in_memory.go:228-249 | setting several items keeps the store well formed and within capacity |
| Cache.AddInt64Checked | cache/in_memory.go:520-543 | fails with overflow iff left + right exceeds the int64 maximum, with underflow iff it is below the minimum, and otherwise returns left + right |
| Cache.CurrentValue | cache/in_memory.go:313-334 | a missing or expired counter reads as 0, and any value read is a 64-bit integer |
| Cache.IncrementFromNothing | cache/in_memory.go:313-334 | incrementing a missing or expired key by delta gives delta |
| Cache.IncrementOfBlank | cache/in_memory.go:315-320 | a live counter whose payload is blank reads as 0, so incrementing it by delta gives delta and stores its decimal form |
| Cache.GetState | cache/in_memory.go:100-110 | the state after a read keeps every key, payload and expiry and stays well formed; a live key moves to the front of the LRU list, and a miss changes nothing |
| Cache.Incremented | cache/in_memory.go:301-357 | the increment succeeds iff the current value reads and the sum stays within int64; it then returns the sum and stores its decimal form under a fresh item with the ttl; a failure changes no entry except dropping an expired one |
| Cache.IncrementRejectsNonInteger | cache/in_memory.go:315-332 | a non-blank payload that is not a 64-bit decimal integer fails the increment and leaves the store unchanged |
| Cache.IncrementTwice | cache/in_memory.go:301-357 | a second increment reads back the first: the result is the checked sum of the first result and the second delta |
| Cache.LruEvictionScenario | cache/in_memory_test.go:90-121 | with room for two, after setting a and b, reading a and setting c, the key b is the one evicted |
| Cache.InMemoryBackend.constructor | cache/in_memory.go:24-68 | a new backend is empty, with the given item limit |
| Cache.InMemoryBackend.Has | cache/in_memory.go:115-132 | true iff the key is present and not expired |
| Cache.InMemoryBackend.Get | cache/in_memory.go:82-113 | found iff the key is live, with its payload; the new state is the hit touched, and a miss or an expired entry leaves the state unchanged |
| Cache.InMemoryBackend.Set | cache/in_memory.go:134-152 | the new state is the upsert of the key |
| Cache.InMemoryBackend.Delete | cache/in_memory.go:154-161 | the new state is the old one without the key |
| Cache.InMemoryBackend.Clear | cache/in_memory.go:163-171 | the entries and the LRU list are emptied |
| Cache.InMemoryBackend.Many | cache/in_memory.go:173-226 | returns the live payloads asked for and touches every hit in order |
| Cache.InMemoryBackend.SetMultiple | cache/in_memory.go:228-249 | the new state is the items upserted in the given order |
| Cache.InMemoryBackend.DeleteMultiple | cache/in_memory.go:251-260 | the new state is the keys deleted one after another |
| Cache.InMemoryBackend.Increment | cache/in_memory.go:262-264 | result and new state are those of the checked increment without a ttl |
| Cache.InMemoryBackend.Decrement | cache/in_memory.go:266-283 | result and new state are those of the decrement (the minimum int64 delta is an error) |
| Cache.InMemoryBackend.IncrementWithTtl | cache/in_memory.go:301-357 | result and new state are those of the checked increment with the ttl |
| Cache.InMemoryBackend.GetEntryLocked | cache/in_memory.go:410-422 | reports a live entry and leaves it alone, or drops the expired entry |
| Cache.InMemoryBackend.DeleteLocked | cache/in_memory.go:386-397 | the new state is the old one without the key |
| Cache.InMemoryBackend.UpsertLocked | cache/in_memory.go:424-462 | the new state is the upsert of the key |
| Cache.InMemoryBackend.EvictOneLocked | cache/in_memory.go:464-497 | the new state is the eviction of the chosen victim |
| CommandContainer.ToLowerAscii | v2/debug/command_container.go:341-357 | the loop computes the ASCII lower-casing of the value |
| CommandContainer.ToLowerChanges | v2/debug/command_container.go:341-357 | a character changes iff it is an upper-case ASCII letter; lower-casing twice changes nothing |
| CommandContainer.ContainsSubstring | v2/debug/command_container.go:394-412 | true iff the needle occurs in the value (the empty needle always does) |
| CommandContainer.ShouldDropErrorContextKey | v2/debug/command_container.go:359-392 | the loop decides exactly the drop rule: the listed keys or a lower-cased key containing "trace" or "stack" |
| CommandContainer.DropKeyCharacterised | v2/debug/command_container.go:359-392 | a key is dropped iff its lower-cased form contains "trace" or "stack" (the listed names are all such keys) |
| CommandContainer.SanitizeCleans | v2/debug/command_container.go:299-339 | sanitising leaves no dropped key at any depth, and a value that is already clean is unchanged |
| CommandContainer.TruncateShape | v2/debug/command_container.go:414-430 | a value of at most 220 characters is unchanged, a longer one becomes its first 217 characters and "..."; truncation is idempotent; verbosity 3 or more shows everything |
| CommandContainer.WrappedShape | v2/debug/command_container.go:497-518 | the pieces concatenate back to the value, and each is at most the width when the width exceeds 1 |
| CommandContainer.Sanitize | v2/debug/command_container.go:299-339 | an object keeps exactly its keys that are not dropped, an array keeps its length, and any other value is unchanged |
| CommandContainer.TruncateCell | v2/debug/command_container.go:414-422 | the cell has at most 220 characters; a short value is unchanged, a longer one has exactly 220, its first 217 characters taken from the value and "..." at the end |
| CommandContainer.Wrapped | v2/debug/command_container.go:497-518 | there is always at least one piece, and exactly one when the value is empty or the width is 1 or less |
| CommandContainer.Page | v2/debug/command_container.go:151-166 | the k-th listed name is the name at the clamped start plus k; a positive limit lists at most limit names, and a non-positive one runs to the end |
| CommandContainer.WrapFixedWidth | v2/debug/command_container.go:497-518 | the loop computes the fixed-width pieces ("" gives [""], width 1 or less gives the value whole) |
| CommandContainer.LimitLinesByVerbosity | v2/debug/command_container.go:536-570 | the result is the lines limited by the verbosity's maximum |
| CommandContainer.LimitedShape | v2/debug/command_container.go:536-570 | limits are 1, 2, 4 and unlimited for verbosity 0, 1, 2 and 3 or more; a cut list keeps its first lines and its last kept line gains " ..." |
| CommandContainer.PageStart | v2/debug/command_container.go:151-157 | the start offset is clamped to [0, total] |
| CommandContainer.PageEnd | v2/debug/command_container.go:159-164 | the end is min(total, start + limit) for a positive limit, else total |
| CommandContainer.PagesTile | v2/debug/command_container.go:151-166 | two consecutive pages of one limit make the page of twice that limit |
| CommandContainer.PageSize | v2/debug/command_container.go:151-166 | a page holds at most limit names, and a non-positive limit lists everything from the start |
| TablePrinter.NormalizedMaxWidth | v2/cli/output/table_printer.go:17-26 | a maximum width below 1 becomes the default 120; any other is kept |
| TablePrinter.CellMaxIsWidest | v2/cli/output/table_printer.go:130-156 | a column's width is at least its header and every non-separator cell in it, and equals the header or one such cell |
| TablePrinter.InitialWidths | v2/cli/output/table_printer.go:130-156 | one width per header column |
| TablePrinter.MinWidths | v2/cli/output/table_printer.go:169-179 | one least width per column, none negative |
| TablePrinter.Clamped | v2/cli/output/table_printer.go:169-179 | every width raised to at least its least width |
| TablePrinter.WidestIn | v2/cli/output/table_printer.go:192-204 | the widest column above its least width, the first one on a tie, or -1 when every column is at its least width |
| TablePrinter.ShrinkAllStep | v2/cli/output/table_printer.go:181-212 | one shrink step takes one character off the widest shrinkable column and keeps every width at or above its least |
| TablePrinter.ShrinkAllDone | v2/cli/output/table_printer.go:181-212 | shrinking stops once the widths fit or no column can shrink |
| TablePrinter.ShrinkAllShape | v2/cli/output/table_printer.go:181-212 | shrunk widths stay at or above their least widths, never grow, and either fit or are all at their least |
| TablePrinter.ShrunkWidthsShape | v2/cli/output/table_printer.go:158-213 | after shrinking every width is at least max(4, header length); the total fits in max - 4 - 3(n - 1) unless every column is at its least |
| TablePrinter.ShrinkStep | v2/cli/output/table_printer.go:181-212 | while a column can shrink, the chosen one is shrinkable and at least as wide as every other shrinkable column |
| TablePrinter.RaiseToMinWidths | v2/cli/output/table_printer.go:169-179 | the loop fills the least widths and raises each width in place to its least |
| TablePrinter.SumWidths | v2/cli/output/table_printer.go:186-189 | the loop computes the total width |
| TablePrinter.FindWidest | v2/cli/output/table_printer.go:192-204 | the scan finds the widest shrinkable column, first on a tie |
| TablePrinter.ShrinkRound | v2/cli/output/table_printer.go:181-212 | one round keeps the widths at their least or above and the running total right, and preserves what the full shrink produces |
| TablePrinter.ShrinkToFit | v2/cli/output/table_printer.go:181-212 | the loop leaves the widths equal to the full specified shrink of the old widths |
| TablePrinter.ShrinkWidthsToFitMaxWidth | v2/cli/output/table_printer.go:158-213 | the widths in place become the specified shrunk widths |
| TablePrinter.WidenByRow | v2/cli/output/table_printer.go:138-151 | one row's pass widens each column to the widest cell seen so far |
| TablePrinter.CalculateColumnWidthsWithMaxWidth | v2/cli/output/table_printer.go:130-156 | the widths are the initial widths, shrunk to the maximum width |
| TablePrinter.LinePieces | v2/cli/output/table_printer.go:283-305 | one line gives at least one piece, none longer than the width |
| TablePrinter.AllPiecesShape | v2/cli/output/table_printer.go:283-305 | the lines give at least as many pieces as there are lines, none longer than the width |
| TablePrinter.WrapCellShape | v2/cli/output/table_printer.go:267-306 | a cell wraps to at least one line, none longer than a width above 1, and a cell without line breaks is simply chunked |
| TablePrinter.WrapCellValue | v2/cli/output/table_printer.go:267-306 | the loops compute the specified wrap: "" gives [""], breaks normalised to "\n", then chunks |
| TablePrinter.CollapsedShape | v2/cli/output/table_printer.go:111-127 | the body never has two separators in a row, none right after the header's, and every data row appears once, in order |
| TablePrinter.PrintTableBlockRows | v2/cli/output/table_printer.go:111-127 | the loop prints exactly the collapsed body |
| RuntimeFlags.ParseModeFlagValue | application/cli.go:83-97 | matched iff the argument is "-mode", "--mode" or starts with "-mode=" or "--mode="; only the bare forms consume the next argument; the value is trimmed and empty unless assigned |
| RuntimeFlags.AssignmentValue | application/cli.go:88-94 | "-mode=x" and "--mode=x" give the trimmed x, matched, without consuming the next argument |
| RuntimeFlags.StripFromKeeps | application/cli.go:143-164 | every kept argument comes from the input, is not blank and is not a mode flag, and there are no more of them than there were arguments |
| RuntimeFlags.StripKeepsPlain | application/cli.go:163 | an ordinary argument is kept as it was |
| RuntimeFlags.StripDropsModeValue | application/cli.go:149-157 | a bare mode flag is dropped together with the argument after it |
| RuntimeFlags.StripRuntimeFlagsFromOsArgs | application/cli.go:132-167 | the loop computes the stripped argument list, program name first |
| RuntimeFlags.Stripped | application/cli.go:132-167 | stripping never lengthens the arguments, is empty only for empty arguments, and keeps the program name first |
| RuntimeFlags.RuntimeMode | application/cli.go:59-80 | a chosen mode is "http" or "cli"; an invalid-mode error carries a mode that is neither |
| RuntimeFlags.NonRuntimeIffStripKeeps | application/cli.go:99-130 | other arguments are present iff stripping leaves more than the program name |
| RuntimeFlags.HasNonRuntimeFlagArguments | application/cli.go:99-130 | the loop decides exactly whether a non-blank, non-mode argument survives the skipping rule |
| RuntimeFlags.ParsedFromKeeps | application/cli.go:30-57 | once a mode has been parsed, later arguments never blank it |
| RuntimeFlags.RuntimeModeChoice | application/cli.go:59-80 | the mode is only "http" or "cli"; an explicit mode decides (an invalid one fails); otherwise other arguments give "cli"; with no arguments the default decides |
| RuntimeFlags.ModeFlagBeforeFlag | application/cli.go:38-48 | "--mode" followed by a dash argument parses no mode, yet stripping drops both |
| RuntimeFlags.ParseRuntimeFlags | application/cli.go:26-81 | the loop and the checks compute the specified runtime mode or the invalid-mode error |
| Parse.NilIsAbsent | internal/parse.go:12-134 | a nil value is reported not found, with the zero value and no error, by every parser |
| Parse.UnsupportedIsError | internal/parse.go:32-34 | a value of an unsupported type is found but a parse error naming the field, the target type and the value, for every parser |
| Parse.TrueWordsParse | internal/parse.go:89-90 | "1", "true", "yes", "y" and "on" parse as true |
| Parse.FalseWordsParse | internal/parse.go:92-93 | "0", "false", "no", "n" and "off" parse as false |
| Parse.BoolRoundTrip | internal/parse.go:65-97 | a formatted boolean reads back, as a string value too |
| Parse.BoolOfString | internal/parse.go:73-79 | a string value that parses gives its boolean, found, with no error |
| Parse.BoolIgnoresCase | internal/parse.go:85-97 | upper-casing the input changes neither whether it parses nor the result |
| Parse.BoolIgnoresPadding | internal/parse.go:85-97 | white space around the word changes neither whether it parses nor the result |
| Parse.IntRoundTrip | internal/parse.go:53-59 | a formatted 64-bit integer reads back, with or without white space around it |
| Parse.IntOfString | internal/parse.go:53-59 | a string whose trimmed form is a 64-bit decimal gives that integer, found, with no error |
| Parse.IntFromFloat | internal/parse.go:47-52 | a float, taken as a real number, gives an integer without error iff it has no fractional part, and then its integer part; it is always found |
| Parse.IntRejects | internal/parse.go:54-57 | a string that is not a 64-bit decimal is found but a parse error carrying the number error |
| Parse.Bool | internal/parse.go:65-83 | nil is not found with false and no error; a boolean passes through; any error is found, with false, naming the field, "bool" and the value |
| Parse.Int | internal/parse.go:37-63 | nil is not found with 0 and no error; int and int64 values pass through; any error is found, with 0, naming the field, "int" and the value |
| Parse.Duration | internal/parse.go:12-35 | nil is not found with 0 and no error; durations, int and int64 values pass through as nanoseconds; any error is found, with 0, naming the field, "duration" and the value |
| Parse.Float64 | internal/parse.go:99-121 | nil is not found with 0 and no error; float64 and float32 values pass through and an int becomes its real value; any error is found, with 0, naming the field, "float64" and the value |
| Parse.MapStringString | internal/parse.go:123-134 | no error iff the value is nil or a string map; a string map is returned found, anything else is found with an empty map and an error naming the field, "map[string]string" and the value |
| Session.StringValueOf | v2/session/session.go:36-48 | a missing key or a value that is not a string reads as ""; a string value reads as itself |
| Session.ApplyConsistent | v2/session/session.go:50-82 | every operation keeps the flags consistent: a cleared session is modified and empty |
| Session.ApplyAllConsistent | v2/session/session.go:50-82 | from a fresh session any run of operations keeps the flags consistent, and once modified a session stays modified |
| Session.DeleteMissingChangesNothing | v2/session/session.go:66-74 | deleting a missing key changes neither the values nor the flags |
| Session.SetThenGet | v2/session/session.go:24-74 | a set key reads back its value and a deleted key reads nil; other keys are unaffected |
| Session.ClearThenSet | v2/session/session.go:50-82 | a set after a clear leaves a modified, no longer cleared session holding only that key |
| Session.Session.constructor | v2/session/session.go:12-18 | a new session holds the given values, unmodified and not cleared |
| Session.Session.Get | v2/session/session.go:24-34 | the stored value, or nil for a missing key |
| Session.Session.String | v2/session/session.go:36-48 | the string read of the stored value |
| Session.Session.Set | v2/session/session.go:50-56 | stores the value, sets modified and resets cleared |
| Session.Session.Delete | v2/session/session.go:66-74 | removes a present key and sets modified; a missing key changes nothing |
| Session.Session.Clear | v2/session/session.go:76-82 | empties the values and sets both flags |
| Session.SetValue | v2/session/session.go:50-56 | the key then reads the value, every other key reads as before, the key set gains the key, and the session is modified and no longer cleared |
| Session.DeleteValue | v2/session/session.go:66-74 | the key then reads nil, every other key reads as before, the key set loses the key, modified is set iff the key was present, and cleared is unchanged |
| Session.ClearValues | v2/session/session.go:76-82 | every key then reads nil, no value is left, and the session is modified and cleared |
| SessionManager.FirstFree | session/manager.go:53-74 | the chosen id is one of the generated ids the storage does not know; none only when every attempt was taken |
| SessionManager.SaveThenLoad | session/manager.go:89-108 | saving a modified, not cleared session with an id makes loading that id return its values |
| SessionManager.SaveUnmodifiedIsNoop | session/manager.go:98-100 | saving an unmodified session leaves the storage unchanged |
| SessionManager.SaveClearedDeletes | session/manager.go:94-96 | saving a cleared session deletes it from the storage |
| SessionManager.SaveNeedsId | session/manager.go:89-116 | saving under the empty id fails iff the session is cleared or modified |
| SessionManager.SessionLifecycle | session/manager.go:27-116 | a new empty session saves as nothing; after a write it loads back with the value; after a clear it no longer loads |
| SessionManager.Manager.constructor | session/manager.go:16-25 | a new manager has empty storage and the given ttl |
| SessionManager.Manager.LoadSession | session/manager.go:27-51 | the empty id or an unknown id gives no session; a known id gives a fresh session of its values (nil data as empty) |
| SessionManager.Manager.NewSession | session/manager.go:53-87 | the session takes the first free generated id, empty and unflagged; with none in 128 attempts the error is returned |
| SessionManager.Manager.SaveSession | session/manager.go:89-108 | a nil session is an error; otherwise the storage becomes the save effect, or stays unchanged with its error |
| SessionManager.Manager.DeleteSession | session/manager.go:110-116 | the empty id is an error and changes nothing; otherwise the id is removed from the storage |
| Bag.StringSlice | v2/bag/string_slice.go:10-31 | found iff the name is present; a slice reads as its items, a string as one item, anything else as no values |
| Bag.StringAt | v2/bag/string_slice.go:33-63 | found iff the name is present; an error comes with found and the empty value |
| Bag.StringAtIndex | v2/bag/string_slice.go:39-62 | for a present name the index is an error iff it is negative or at least the length, else the value is the item there |
| Bag.StringAtMissing | v2/bag/string_slice.go:34-37 | a missing name is not found, with no error |
| Bag.AppendString | v2/bag/string_slice.go:65-99 | the bag becomes the appended map, or is left unchanged with the error |
| Bag.AppendStringSlice | v2/bag/string_slice.go:101-110 | the loop performs the appends in order and stops at the first error |
| Bag.AppendThenRead | v2/bag/string_slice.go:65-99 | after an append the name reads as its old items followed by the value; every other parameter is unchanged |
| Bag.AppendFailsOnOther | v2/bag/string_slice.go:90-97 | an append fails iff the parameter holds something other than a string or a string slice, with the not-strings error |
| Bag.AppendThenStringAt | v2/bag/string_slice.go:33-99 | after an append the last index reads the appended value |
| Bag.FirstAppendFails | v2/bag/string_slice.go:101-110 | if an append in the loop fails, it is the first one |
| Bag.AppendAllShape | v2/bag/string_slice.go:101-110 | appending a non-empty list leaves a string slice under the name |
| Bag.AppendAllStops | v2/bag/string_slice.go:103-106 | once an append fails, the rest of the list changes nothing |
| Bag.AppendAllRead | v2/bag/string_slice.go:101-110 | appending a list makes the name read as its old items followed by the list |
| Bag.AppendAllFails | v2/bag/string_slice.go:101-110 | appending a non-empty list fails iff the parameter holds another type |
| EnvironmentSource.DropCarriageReturn | v2/config/environment_source.go:194-195 | a line loses at most a final carriage return, as the line scanner drops it |
| EnvironmentSource.ScanLines | v2/config/environment_source.go:186-195 | the scanned lines hold no line break |
| EnvironmentSource.CommentFrom | v2/config/environment_source.go:202-221 | the cut is the first unquoted "#" from the given position, or the end of the line |
| EnvironmentSource.UncommentedCharacterised | v2/config/environment_source.go:202-221 | what is kept is a prefix of the line with no comment start in it, and it ends at the end of the line or at a comment start |
| EnvironmentSource.QuotedHashKept | v2/config/environment_source.go:203-214 | a "#" inside an open quote is kept |
| EnvironmentSource.UnquotedHashCuts | v2/config/environment_source.go:216-218 | an unquoted "#" ends the kept text |
| EnvironmentSource.NoHashKeepsLine | v2/config/environment_source.go:202-221 | a line without "#" is kept whole |
| EnvironmentSource.StripComment | v2/config/environment_source.go:197-221 | the character loop, with its quote state, keeps exactly the uncommented prefix |
| EnvironmentSource.Processed | v2/config/environment_source.go:223 | the processed line is a prefix of the line not ending in white space |
| EnvironmentSource.KeptLinesAppend | v2/config/environment_source.go:192-229 | keeping lines distributes over concatenation, so kept lines keep their order |
| EnvironmentSource.KeptLine | v2/config/environment_source.go:223-228 | a line is dropped iff its processed form is blank, else its processed form is kept |
| EnvironmentSource.KeptLinesShape | v2/config/environment_source.go:223-228 | each kept line is non-blank, has no trailing white space and no line break |
| EnvironmentSource.CleanLineKept | v2/config/environment_source.go:202-228 | a line without "#" and without trailing white space is kept exactly |
| EnvironmentSource.OutputLines | v2/config/environment_source.go:239 | the output is empty when no line is kept, else splitting it on "\n" gives back exactly the kept lines |
| EnvironmentSource.Preprocess | v2/config/environment_source.go:185-240 | the scanning loop returns the scanner's error when some raw line is 1 MiB or longer, and otherwise the specified preprocessed content |
| EnvironmentSource.DotEnvContent | v2/config/environment_source.go:186-190 | an error iff some raw line reaches the scanner's 1 MiB token limit; otherwise the kept lines joined by line breaks |
| EnvironmentSource.PreprocessedContent | v2/config/environment_source.go:192-239 | the specified output without the scanner error: the kept lines joined by line breaks; its shape is stated by OutputLines, KeptLinesShape and KeptLine |
| EnvironmentSource.AnyTooLongExists | v2/config/environment_source.go:231-237 | the loop's running failure flag is set exactly when some line scanned so far is too long |
| EnvironmentSource.RawLines | v2/config/environment_source.go:186-192 | the lines between line breaks, without a final empty one; none holds a line break |
| AccessDecisionManager.FirstNil | security/access_decision_manager.go:27-39 | the first position holding no voter, or -1 when every voter is present |
| AccessDecisionManager.NewManager | security/access_decision_manager.go:14-45 | an invalid strategy is an error; otherwise the first missing voter is an error at its index; the manager is built iff both checks pass, with the strategy and the voters in order |
| AccessDecisionManager.Ballots | security/access_decision_manager.go:87-100 | only supporting voters vote, so there are no more ballots than voters |
| AccessDecisionManager.Count | security/access_decision_manager.go:83-100 | the tally of one kind of vote, zero iff no ballot is of that kind |
| AccessDecisionManager.Verdict | security/access_decision_manager.go:102-138 | no grant and no denial refuses; affirmative grants iff some grant; consensus iff more grants than denials; unanimous iff no denial and some grant |
| AccessDecisionManager.DecideSingleAttribute | security/access_decision_manager.go:82-139 | the voter loop succeeds iff the attribute is allowed by the strategy's verdict on the tallies |
| AccessDecisionManager.DecideAll | security/access_decision_manager.go:60-69 | succeeds iff every attribute is allowed |
| AccessDecisionManager.DecideAny | security/access_decision_manager.go:71-80 | succeeds iff some attribute is allowed, else the forbidden error |
| AccessDecisionManager.BallotHas | security/access_decision_manager.go:87-100 | a kind of vote is tallied iff some supporting voter casts it |
| AccessDecisionManager.AbstentionsRefuse | security/access_decision_manager.go:102-108 | with only abstentions, or no supporting voter, access is refused |
| AccessDecisionManager.AffirmativeGrantsOnAnyGrant | security/access_decision_manager.go:110-116 | affirmative allows iff some voter grants |
| AccessDecisionManager.ConsensusNeedsMajority | security/access_decision_manager.go:118-128 | consensus allows iff grants outnumber denials, so a tie refuses |
| AccessDecisionManager.UnanimousRefusesOnAnyDenial | security/access_decision_manager.go:130-138 | unanimous allows iff no voter denies and some voter grants |
| AccessControl.NormalizePathPrefix | security/access_control.go:253-266 | blank iff the trimmed prefix is blank; "/" is kept; otherwise exactly one trailing slash is removed from the trimmed prefix, and a prefix without one is the trimmed prefix |
| AccessControl.NormalizeAttributes | security/access_control.go:14-22 | never longer than the input, and every kept attribute is non-blank and trimmed |
| AccessControl.NormalizeAttributesKeeps | security/access_control.go:14-22 | an attribute is kept iff it is non-blank and some given attribute trims to it |
| AccessControl.PrefixRule | security/access_control.go:11-31 | a plain prefix rule with the normalised prefix and attributes |
| AccessControl.ExactRule | security/access_control.go:33-50 | a blank path is an error (the panic); otherwise an exact rule with the trimmed path minus a trailing slash and the normalised attributes |
| AccessControl.RegexRule | security/access_control.go:52-79 | a rule is built iff the trimmed pattern is non-blank and compiles; it is a regex rule holding the trimmed pattern and the normalised attributes; a blank pattern is the empty-pattern error, and one that does not compile the invalid-pattern error with the trimmed pattern |
| AccessControl.SegmentPrefixRule | security/access_control.go:81-105 | a segment-prefix rule whose prefix is the normalised prefix with one further trailing slash removed, unless it is "/" |
| AccessControl.Rebuilt | security/access_control.go:120-143 | rebuilding keeps the rule's kind, and a rule any constructor could have built is rebuilt without error |
| AccessControl.NewAccessControl | security/access_control.go:117-149 | on success the k-th rule is the k-th input rebuilt by its own constructor (regex rules kept, prefixes and attributes normalised); it fails iff some rebuild panics, with the error of the first such rule |
| AccessControl.Rules | security/access_control.go:155-157 | the rules in their stored order |
| AccessControl.NormalizeMatchPath | security/access_control.go:160-167 | the matched path is never empty, and a blank path becomes "/" |
| AccessControl.First | security/access_control.go:169-175 | the first rule satisfying the test, or -1 when none does |
| AccessControl.PrefixScan | security/access_control.go:177-226 | the chosen index, when any, is a covering prefix rule and its recorded length is that rule's prefix length |
| AccessControl.PrefixScanBest | security/access_control.go:182-226 | no rule is chosen iff none covers the path; the chosen rule has the greatest prefix length and is the first of that length |
| AccessControl.Match | security/access_control.go:159-251 | the loops return the attributes the precedence order decides: exact, longest prefix, first regex, fallback, else no match |
| AccessControl.FirstExact | security/access_control.go:169-175 | the exact-rule loop finds the first exact rule equal to the path |
| AccessControl.FirstRegex | security/access_control.go:232-244 | the regex loop finds the first regex rule matching the path |
| AccessControl.FirstIsFirst | security/access_control.go:169-175 | any index with the first-hit property is the one First returns |
| AccessControl.ScanPrefixes | security/access_control.go:177-226 | the prefix loop computes the best prefix index and the first fallback index |
| AccessControl.ExactRuleWins | security/access_control.go:169-175 | the first exact hit decides the match, whatever the other rules |
| AccessControl.LongestPrefixWins | security/access_control.go:216-229 | with no exact hit, the first rule of the longest covering prefix decides |
| AccessControl.FirstRegexWins | security/access_control.go:232-244 | with no exact or prefix hit, the first matching regex decides |
| AccessControl.FallbackComesLast | security/access_control.go:246-250 | only when nothing else hits does the first blank-prefix rule decide, and with none there is no match |
| AccessControl.SegmentPrefixBoundary | security/access_control.go:196-214 | a segment prefix other than "/" covers a path iff the path equals it or continues it after a slash |
| AccessControl.ConstructorsBuildAcceptedRules | security/access_control.go:11-105 | every rule the constructors build is accepted when rebuilt by the access control |
| AccessControl.ExactPathKeepsContent | security/access_control.go:33-50 | normalising a non-blank exact path leaves it non-blank, so rebuilding never panics |
| PipelineBuilder.IsEnabledForEnvironment | v2/http/middleware/pipeline/builder.go:177-189 | enabled iff the definition names no environment or names this one |
| PipelineBuilder.IsEnabledForGroup | v2/http/middleware/pipeline/builder.go:191-207 | enabled iff the group is blank, the definition names no group, or it names this one |
| PipelineBuilder.SelectStep | v2/http/middleware/pipeline/builder.go:121-172 | one turn of the selection loop keeps every seen name pointing at the selected definition of that name |
| PipelineBuilder.Select | v2/http/middleware/pipeline/builder.go:109-175 | after the whole loop every seen name still points at the selected definition of that name |
| PipelineBuilder.SelectDefinitions | v2/http/middleware/pipeline/builder.go:109-175 | the loop returns the selection and the inactive list of the selection function |
| PipelineBuilder.SelectedAreActive | v2/http/middleware/pipeline/builder.go:121-172 | every selected definition is a named, enabled input definition, and every such definition's name was selected |
| PipelineBuilder.StepSelected | v2/http/middleware/pipeline/builder.go:152-171 | a turn keeps or replaces earlier selections and may only add the current definition when it is active |
| PipelineBuilder.StepSeen | v2/http/middleware/pipeline/builder.go:152-171 | a turn forgets no seen name and records an active definition's name |
| PipelineBuilder.SelectedFromInput | v2/http/middleware/pipeline/builder.go:121-172 | every selected definition comes from the input and is active |
| PipelineBuilder.ActiveAreSeen | v2/http/middleware/pipeline/builder.go:121-172 | the name of every active input definition ends up selected |
| PipelineBuilder.SkippedAreReported | v2/http/middleware/pipeline/builder.go:122-150 | an unnamed, environment-disabled or group-disabled definition is reported inactive with its reason |
| PipelineBuilder.StepKeepsNamesUnique | v2/http/middleware/pipeline/builder.go:152-171 | a turn on a definition that does not allow duplicates keeps the selected names distinct |
| PipelineBuilder.ReplaceKeepsNamesUnique | v2/http/middleware/pipeline/builder.go:154-155 | replacing the existing selection of a name keeps the names distinct |
| PipelineBuilder.AppendKeepsNamesUnique | v2/http/middleware/pipeline/builder.go:167-171 | appending a definition with an unseen name keeps the names distinct |
| PipelineBuilder.SelectedNamesUnique | v2/http/middleware/pipeline/builder.go:152-171 | with no duplicates allowed, the selected names are pairwise distinct |
| PipelineBuilder.NodesOf | v2/http/middleware/pipeline/builder.go:220-233 | the nodes are keyed by non-empty name, hold an input definition of that name, and cover every named definition |
| PipelineBuilder.NodesOfLastWins | v2/http/middleware/pipeline/builder.go:223-233 | a named definition not followed by another of its name is the node for that name |
| PipelineBuilder.NodeIsLast | v2/http/middleware/pipeline/builder.go:223-233 | every node is the last input definition of its name |
| PipelineBuilder.NodeIndex | v2/http/middleware/pipeline/builder.go:223-233 | every node sits at an input position after which its name does not occur again |
| PipelineBuilder.Targets | v2/http/middleware/pipeline/builder.go:249 | the targets of a node's edges are nodes |
| PipelineBuilder.Into | v2/http/middleware/pipeline/builder.go:250 | a node's remaining in-degree is zero iff no edge into it comes from a node not yet emitted |
| PipelineBuilder.GraphAppendAt | v2/http/middleware/pipeline/builder.go:235-251 | one more link adds its target to the source node's list and one to the target's in-degree, and only when both ends are nodes |
| PipelineBuilder.MissingAppend | v2/http/middleware/pipeline/builder.go:239-246 | one more link records the missing end when exactly one end is a node, and nothing otherwise |
| PipelineBuilder.EdgeAppended | v2/http/middleware/pipeline/builder.go:249-250 | an edge between two nodes keeps the graph state consistent with the extended link list |
| PipelineBuilder.ReferenceMissing | v2/http/middleware/pipeline/builder.go:239-246 | a link with a missing end changes only the missing-reference list |
| PipelineBuilder.AddEdge | v2/http/middleware/pipeline/builder.go:235-251 | the edge closure keeps the graph state consistent with the extended link list |
| PipelineBuilder.BuildNodes | v2/http/middleware/pipeline/builder.go:220-233 | the node loop builds the nodes, empty target lists and zero in-degrees |
| PipelineBuilder.AddDefinitionEdges | v2/http/middleware/pipeline/builder.go:253-270 | one definition's "after" and "before" edges are added in order |
| PipelineBuilder.AddAfterEdges | v2/http/middleware/pipeline/builder.go:258-263 | each non-empty "after" name adds an edge from it to the definition |
| PipelineBuilder.AddBeforeEdges | v2/http/middleware/pipeline/builder.go:265-270 | each non-empty "before" name adds an edge from the definition to it |
| PipelineBuilder.LinksOfStep | v2/http/middleware/pipeline/builder.go:253-271 | the links of one more definition are appended after the earlier ones |
| PipelineBuilder.BuildGraph | v2/http/middleware/pipeline/builder.go:220-271 | the edge loops build exactly the graph of every definition's links |
| PipelineBuilder.InsertDefinition | v2/http/middleware/pipeline/builder.go:280-291 | inserting into a list sorted by priority, then name, keeps it sorted and adds exactly that element |
| PipelineBuilder.SortDefinitions | v2/http/middleware/pipeline/builder.go:280-291 | the result is sorted by priority, then name, and is a permutation of the input |
| PipelineBuilder.InsertKeepsKeyOrder | v2/http/middleware/pipeline/builder.go:325-330 | an inserted definition lands after every listed definition with its priority and name |
| PipelineBuilder.SortKeepsKeyOrder | v2/http/middleware/pipeline/builder.go:325-330 | the sort is stable: the definitions sharing a priority and a name keep their input order |
| PipelineBuilder.MinimumExists | v2/http/middleware/pipeline/builder.go:280-299 | every non-empty set of ready nodes has a least node by priority, then name |
| PipelineBuilder.MinimumUnique | v2/http/middleware/pipeline/builder.go:280-299 | that least node is unique, because names are distinct |
| PipelineBuilder.FirstAvailable | v2/http/middleware/pipeline/builder.go:297-299 | the node taken from the ready list is the least ready one |
| PipelineBuilder.OrderStep | v2/http/middleware/pipeline/builder.go:297-316 | emitting the least ready node continues the same order |
| PipelineBuilder.IntoStep | v2/http/middleware/pipeline/builder.go:303-313 | emitting a node lowers each in-degree by the number of its edges to that node |
| PipelineBuilder.DefinitionsOf | v2/http/middleware/pipeline/builder.go:301 | the result lists the node of each emitted name, in order |
| PipelineBuilder.SortedReady | v2/http/middleware/pipeline/builder.go:293 | sorting the collected ready nodes gives the ready list of the order |
| PipelineBuilder.HeadIsFirst | v2/http/middleware/pipeline/builder.go:297-299 | the head of the sorted ready list is the least ready node, and the rest are the other ready nodes |
| PipelineBuilder.CollectStep | v2/http/middleware/pipeline/builder.go:273-278 | one turn of the zero-degree loop keeps the collected nodes equal to the zero-degree nodes visited |
| PipelineBuilder.ZeroDegreeNodes | v2/http/middleware/pipeline/builder.go:273-278 | the loop collects, without repetition, exactly the nodes of in-degree zero |
| PipelineBuilder.InitialAvailable | v2/http/middleware/pipeline/builder.go:273-278 | before anything is emitted, the ready nodes are those of in-degree zero |
| PipelineBuilder.InitialReady | v2/http/middleware/pipeline/builder.go:273-293 | the sorted initial list is the ready list of the empty order |
| PipelineBuilder.TargetPending | v2/http/middleware/pipeline/builder.go:303-310 | a target of the emitted node still has a positive in-degree and is not yet emitted |
| PipelineBuilder.ReadyAfterRelease | v2/http/middleware/pipeline/builder.go:309-312 | a target whose in-degree drops to zero joins the ready list, and no other node does |
| PipelineBuilder.DegreesAfterRelease | v2/http/middleware/pipeline/builder.go:309 | decrementing a target's in-degree keeps the in-degrees equal to those of the order |
| PipelineBuilder.ReleaseStep | v2/http/middleware/pipeline/builder.go:303-313 | one turn of the target loop keeps the in-degrees and the ready list consistent |
| PipelineBuilder.ReleaseStart | v2/http/middleware/pipeline/builder.go:303 | the target loop starts from a consistent state |
| PipelineBuilder.ReleasedDegrees | v2/http/middleware/pipeline/builder.go:303-313 | after all targets the in-degrees are those with the node emitted |
| PipelineBuilder.EmittedStayDone | v2/http/middleware/pipeline/builder.go:297-313 | emitted nodes keep zero remaining in-degree |
| PipelineBuilder.ReleaseEnd | v2/http/middleware/pipeline/builder.go:303-313 | after all targets the ready list holds exactly the ready nodes of the longer order |
| PipelineBuilder.ReleaseOne | v2/http/middleware/pipeline/builder.go:304-312 | one target release keeps the target loop consistent |
| PipelineBuilder.ReleaseTargets | v2/http/middleware/pipeline/builder.go:303-313 | releasing all of a node's targets leaves the in-degrees and ready list of the longer order |
| PipelineBuilder.EmittedGrows | v2/http/middleware/pipeline/builder.go:297-316 | each emission reduces the number of nodes left, so the loop ends |
| PipelineBuilder.EmitOne | v2/http/middleware/pipeline/builder.go:297-316 | one turn emits a not-yet-emitted node and keeps the state that of the greedy order |
| PipelineBuilder.EmittingDone | v2/http/middleware/pipeline/builder.go:297 | when the ready list is empty, the emitted names are the whole greedy order |
| PipelineBuilder.EmitReady | v2/http/middleware/pipeline/builder.go:295-316 | the Kahn loop emits the definitions of the greedy order, in order |
| PipelineBuilder.OrderFacts | v2/http/middleware/pipeline/builder.go:297-316 | the order only holds nodes, extends what was emitted, and stops with nothing ready |
| PipelineBuilder.OrderNoDuplicates | v2/http/middleware/pipeline/builder.go:297-316 | no node is emitted twice |
| PipelineBuilder.OrderRespectsEdges | v2/http/middleware/pipeline/builder.go:297-316 | every edge into an emitted node comes from a node emitted before it |
| PipelineBuilder.OrderGreedy | v2/http/middleware/pipeline/builder.go:280-316 | each emitted node is the least ready node at its turn |
| PipelineBuilder.GreedyExtend | v2/http/middleware/pipeline/builder.go:297-316 | a greedy suffix preceded by a least ready node is greedy |
| PipelineBuilder.DistinctCount | v2/http/middleware/pipeline/builder.go:319 | distinct names count as many as the list is long |
| PipelineBuilder.CompleteIffAllEmitted | v2/http/middleware/pipeline/builder.go:319 | the order has as many names as there are nodes iff every node is emitted |
| PipelineBuilder.OrderIsKahn | v2/http/middleware/pipeline/builder.go:273-320 | the order is a duplicate-free, edge-respecting greedy order, complete iff every node is in it; each node left out has an edge from a node left out |
| PipelineBuilder.AfterLinkPresent | v2/http/middleware/pipeline/builder.go:258-263 | each non-empty "after" name gives an edge to the definition |
| PipelineBuilder.BeforeLinkPresent | v2/http/middleware/pipeline/builder.go:265-270 | each non-empty "before" name gives an edge from the definition |
| PipelineBuilder.LinksOfHas | v2/http/middleware/pipeline/builder.go:253-271 | a definition's links are among all the links |
| PipelineBuilder.LinkHonoured | v2/http/middleware/pipeline/builder.go:297-320 | in a complete order the source of each edge comes before its target |
| PipelineBuilder.AfterAndBeforeRespected | v2/http/middleware/pipeline/builder.go:215-336 | without a cycle, a definition comes after every node it names in "after" and before every node it names in "before" |
| PipelineBuilder.OrderedDistinct | v2/http/middleware/pipeline/builder.go:215-336 | without a cycle, the ordered definitions have distinct non-empty names, each the last input definition of that name |
| PipelineBuilder.UniqueSorted | v2/http/middleware/pipeline/builder.go:338-359 | the result is strictly sorted and holds exactly the non-empty input values |
| PipelineBuilder.OrderDefinitions | v2/http/middleware/pipeline/builder.go:215-336 | returns the Kahn order or, on a cycle, every definition sorted by priority then name, with the flag; and the sorted missing references |
| PipelineBuilder.Instantiate | v2/http/middleware/pipeline/builder.go:71-104 | no error iff every named definition has a working factory; on an error nothing is built and the error names the first failing definition, nil factory or factory error |
| PipelineBuilder.InstantiateProduces | v2/http/middleware/pipeline/builder.go:71-104 | without an error, the middlewares and names are those the non-nil factories produce, in order |
| PipelineBuilder.ProducedFromOrdered | v2/http/middleware/pipeline/builder.go:72-103 | every recorded name is the name of an ordered, named definition |
| PipelineBuilder.ProducedDistinct | v2/http/middleware/pipeline/builder.go:72-103 | distinct definition names give distinct recorded names |
| PipelineBuilder.BuiltNamesDistinct | v2/http/middleware/pipeline/builder.go:31-107 | a successful build reports distinct names |
| PipelineBuilder.InstantiateAll | v2/http/middleware/pipeline/builder.go:71-104 | the factory loop computes the instantiation function |
| PipelineBuilder.Builder.constructor | v2/http/middleware/pipeline/builder.go:13-17 | the builder holds the given definitions |
| PipelineBuilder.Builder.Add | v2/http/middleware/pipeline/builder.go:23-29 | the new definitions are appended after the existing ones |
| PipelineBuilder.Builder.Build | v2/http/middleware/pipeline/builder.go:31-107 | a cycle is an error with a report and no middlewares; missing references likewise; otherwise the factories' result, with a report iff they succeed; every report carries the group, environment, inactive list, cycle flag and sorted missing references |
| PipelineBuilder.CycleAnswer | v2/http/middleware/pipeline/builder.go:50-58 | a cycle gives the cycle error with a report |
| PipelineBuilder.MissingAnswer | v2/http/middleware/pipeline/builder.go:60-69 | without a cycle, missing references give their error with a report |
| PipelineBuilder.InstantiatedAnswer | v2/http/middleware/pipeline/builder.go:71-106 | otherwise the result is that of the factories |
| EventDispatcher.InsertedMultiset | event/event_dispatcher.go:71-89 | inserting a listener into the sorted list adds exactly that entry |
| EventDispatcher.InsertedInOrder | event/event_dispatcher.go:80-89 | inserting an entry with a larger id than every listed one keeps the list ordered by descending priority, then ascending id |
| EventDispatcher.InOrderUnique | event/event_dispatcher.go:80-89 | two ordered lists with the same entries are equal, so the order after the stable sort is determined |
| EventDispatcher.AppendThenSortIsInserted | event/event_dispatcher.go:71-89 | appending the new entry and sorting stably gives the same list as inserting it in order |
| EventDispatcher.InsertedDistinct | event/event_dispatcher.go:68-78 | inserting an entry with a fresh id keeps the ids of the list distinct |
| EventDispatcher.InsertedFresh | event/event_dispatcher.go:68-89 | inserting the entry with the next id keeps the list ordered, its ids distinct and within the issued bound, and adds exactly that id |
| EventDispatcher.AddListenerWellformed | event/event_dispatcher.go:44-97 | adding a listener to a named event keeps the dispatcher well formed |
| EventDispatcher.AddListenerDisjoint | event/event_dispatcher.go:68-78 | each listener id is listed under one event only after the addition |
| EventDispatcher.AddListenerListed | event/event_dispatcher.go:68-89 | after the addition the listed entries are the earlier ones plus the new entry under its event |
| EventDispatcher.Without | event/event_dispatcher.go:612-622 | the filtered list keeps exactly the entries whose id differs, and is never longer |
| EventDispatcher.WithoutInOrder | event/event_dispatcher.go:612-622 | filtering keeps the dispatch order |
| EventDispatcher.WithoutDistinct | event/event_dispatcher.go:612-622 | filtering keeps the ids distinct |
| EventDispatcher.WithoutIds | event/event_dispatcher.go:612-622 | filtering removes exactly that id from the list's ids |
| EventDispatcher.WithoutCount | event/event_dispatcher.go:613-618 | the removed count is the number of positions holding the id |
| EventDispatcher.RemovesAtMostOne | event/event_dispatcher.go:603-632 | with distinct ids, one entry is removed when the id is listed and none otherwise |
| EventDispatcher.RemoveByIdWellformed | event/event_dispatcher.go:603-632 | removal keeps the dispatcher well formed, leaves other events alone, drops an event left empty, and counts at most one |
| EventDispatcher.RemoveByIdShape | event/event_dispatcher.go:607-629 | only the named event's list changes; it is filtered and dropped when empty |
| EventDispatcher.RemoveByIdListed | event/event_dispatcher.go:603-632 | after removal an entry is listed iff it was and is not that id under that event |
| EventDispatcher.StripRegistration | event/event_dispatcher.go:130-137 | the filtered registrations are exactly those not for that event and id |
| EventDispatcher.RemoveAllEffect | event/event_dispatcher.go:278-286 | removing a subscriber's registrations keeps the state well formed, counts at most one per registration, and delists exactly the registered listeners |
| EventDispatcher.FirstUnusable | event/event_dispatcher.go:203-229 | the position of the first nil entry or nil listener, before which every entry is usable |
| EventDispatcher.PlanList | event/event_dispatcher.go:203-249 | the listeners added for one event are its usable leading entries; a panic happens iff the list has an unusable entry |
| EventDispatcher.PlanEvents | event/event_dispatcher.go:191-250 | every planned listener is for a listed event; finishing without a panic means every event had a list |
| EventDispatcher.NewRegistrations | event/event_dispatcher.go:231-247 | the k-th registration holds the k-th step's event, the k-th issued id and the subscriber type |
| EventDispatcher.SubscribeAppend | event/event_dispatcher.go:191-250 | subscribing one batch of steps after another is subscribing them all |
| EventDispatcher.PlanEventsStep | event/event_dispatcher.go:191-250 | the plan for the events from one position is that event's list plan followed by the rest |
| EventDispatcher.RegisterRegistrations | event/event_dispatcher.go:231-247 | one registration issues one id and appends only to the subscriber's own registrations |
| EventDispatcher.SubscribeRegistrations | event/event_dispatcher.go:191-250 | subscribing issues one id per step and appends the new registrations to the subscriber alone |
| EventDispatcher.SubscribeNextId | event/event_dispatcher.go:231-235 | the id counter grows by the number of listeners added |
| EventDispatcher.SubscribeOwnList | event/event_dispatcher.go:240-247 | the subscriber's registrations grow by exactly the new ones |
| EventDispatcher.SubscribeOthers | event/event_dispatcher.go:240-247 | other subscribers' registrations are unchanged |
| EventDispatcher.RegisterListeners | event/event_dispatcher.go:231-235 | one registration keeps the state well formed and adds exactly its listener entry |
| EventDispatcher.SubscribeListeners | event/event_dispatcher.go:191-250 | subscribing keeps the state well formed and lists exactly the earlier entries plus the added ones |
| EventDispatcher.InOrderSameMembers | event/event_dispatcher.go:80-89 | two ordered lists with the same members are equal |
| EventDispatcher.NewRegistrationsFor | event/event_dispatcher.go:240-247 | a new registration exists for an event and id iff some step is for that event and was issued that id |
| EventDispatcher.ListedBound | event/event_dispatcher.go:68-69 | every listed id is at most the last issued id |
| EventDispatcher.RemoveNewListed | event/event_dispatcher.go:253-287 | removing a subscription's new registrations restores the earlier listed entries |
| EventDispatcher.SubscribeThenRemove | event/event_dispatcher.go:151-287 | adding a fresh subscriber and then removing it leaves the listeners as they were |
| EventDispatcher.AddThenRemove | event/event_dispatcher.go:44-149 | adding a listener and removing it by its id leaves the listeners as they were and removes one entry |
| EventDispatcher.AddThenRemoveListeners | event/event_dispatcher.go:44-149 | adding a listener and removing it by its id restores the listener map |
| EventDispatcher.AddThenRemoveCount | event/event_dispatcher.go:603-632 | removing a just-added listener removes exactly one entry |
| EventDispatcher.RunListeners | event/event_dispatcher.go:386-429 | a non-empty snapshot calls at least one and at most all of its listeners |
| EventDispatcher.RunListenersFacts | event/event_dispatcher.go:386-439 | listeners run in snapshot order; all but the last returned nil without stopping; a failure is the last one's; the loop ends early only on a failure or stopped propagation |
| EventDispatcher.RunOrder | event/event_dispatcher.go:386-429 | the called listeners are a prefix of the snapshot, every one but the last returning nil without stopping |
| EventDispatcher.RunLast | event/event_dispatcher.go:415-428 | a failure is that of the last listener called, and ending early needs a failure or stopped propagation |
| EventDispatcher.RunStopped | event/event_dispatcher.go:419-428 | without a failure, propagation is stopped iff it was at the start or some called listener stopped it |
| EventDispatcher.OwnerMap | event/event_dispatcher.go:529-541 | an owner is recorded for an event and id iff some subscriber registered it, and it is that subscriber's type |
| EventDispatcher.ReportListeners | event/event_dispatcher.go:552-589 | one report per entry, giving its priority and decimal id, the subscriber owner when registered by one, and the listener source with owner "-" otherwise |
| EventDispatcher.Dispatcher.constructor | event/event_dispatcher.go:22-34 | an empty, well-formed dispatcher |
| EventDispatcher.Dispatcher.AddListener | event/event_dispatcher.go:44-97 | an empty name or nil listener panics with no change; otherwise the next id is returned and the entry is inserted in dispatch order |
| EventDispatcher.Dispatcher.RemoveListenerById | event/event_dispatcher.go:603-632 | the listeners and count are those of the removal function; registrations and the counter are unchanged |
| EventDispatcher.Dispatcher.RemoveListener | event/event_dispatcher.go:99-149 | an empty name or id 0 panics with no change; otherwise the result says whether the id was listed, and when it was its registrations are dropped |
| EventDispatcher.Dispatcher.AddSubscriber | event/event_dispatcher.go:151-251 | the state and panic are those of the subscription function: the checks, then each sorted event's entries added until the first nil |
| EventDispatcher.Dispatcher.SubscribeEvents | event/event_dispatcher.go:191-250 | the outer loop adds the planned listeners and reports the planned panic |
| EventDispatcher.Dispatcher.SubscribeList | event/event_dispatcher.go:203-249 | the inner loop adds one event's planned listeners and reports its panic |
| EventDispatcher.Dispatcher.SubscribeOne | event/event_dispatcher.go:231-247 | one entry adds its listener and the subscriber's registration |
| EventDispatcher.Dispatcher.RemoveSubscriber | event/event_dispatcher.go:253-287 | a nil subscriber or pointer 0 panics with no change; otherwise its registrations are dropped, their listeners removed and the count returned |
| EventDispatcher.Dispatcher.Dispatch | event/event_dispatcher.go:353-440 | a nil event or an empty name panics; otherwise the snapshot of the event's listeners runs in order until a failure or stopped propagation |
| EventDispatcher.Dispatcher.RegisteredEvents | event/event_dispatcher.go:525-601 | one report per event name in sorted order, each listing its listeners in dispatch order as reported |
| EventDispatcher.RunSnapshot | event/event_dispatcher.go:386-429 | the loop computes the run function on the snapshot |
| EventDispatcher.FilterListeners | event/event_dispatcher.go:612-622 | the loop filters out the id and counts the removed entries |
| EventDispatcher.UnregisterAll | event/event_dispatcher.go:128-145 | the loop drops the registration from every subscriber, and drops subscribers left with none |
| EventDispatcher.StripList | event/event_dispatcher.go:130-137 | the loop keeps exactly the registrations not for that event and id |
| EventDispatcher.RemoveById | event/event_dispatcher.go:603-632 | only the named event can lose its list; no other event name disappears, and an absent event removes nothing |
| EventDispatcher.Unregister | event/event_dispatcher.go:128-145 | dropping a registration never adds a subscriber |
| EventDispatcher.Register | event/event_dispatcher.go:231-247 | one registration issues one id, lists the step's event and the subscriber, and leaves other subscribers' registrations unchanged |
| EventDispatcher.Subscribe | event/event_dispatcher.go:191-250 | subscribing issues one id per step and never removes an event name |
| EventDispatcher.Dispatcher.RemoveRegistrations | event/event_dispatcher.go:278-286 | the loop removes each registration's listener by id, in order, and returns the total removed; the registrations and the id counter stay unchanged |
| EventDispatcher.NewEventDispatcher | event/event_dispatcher.go:22-34 | a missing clock panics; otherwise a fresh, empty dispatcher |
| RateLimit.TakeToken | http/middleware/rate_limit.go:62-85 | a missing bucket, or one refilled a window or more ago, starts full at now; the request is allowed iff a token is left, and then one token is taken |
| RateLimit.TakeTokenBounded | http/middleware/rate_limit.go:62-85 | a request keeps the bucket between the capacity and zero, or the capacity when that is negative |
| RateLimit.FirstRequestAllowed | http/middleware/rate_limit.go:62-85 | a key's first request is allowed iff the capacity is positive, leaving one token fewer |
| RateLimit.BurstBounded | http/middleware/rate_limit.go:71-85 | within one window a bucket allows at most as many requests as it holds tokens, taking one per request |
| RateLimit.FreshKeyLimited | http/middleware/rate_limit.go:56-86 | within one window from a key's first request at most the capacity is allowed |
| RateLimit.TokenBucketLimiter.constructor | http/middleware/rate_limit.go:21-38 | the limiter holds the rate as capacity, the window and the cleanup interval, with no buckets and no cleanup yet |
| RateLimit.TokenBucketLimiter.CleanupIfNeeded | http/middleware/rate_limit.go:99-118 | the first call only records the time; once an interval has passed, buckets refilled more than two windows ago are dropped and the time recorded |
| RateLimit.TokenBucketLimiter.Allow | http/middleware/rate_limit.go:56-86 | after the cleanup the key's bucket is replaced by the result of one request, and the answer is that request's |
| RateLimit.TokenBucketLimiter.Reset | http/middleware/rate_limit.go:88-93 | the key's bucket is dropped and nothing else changes |
| RateLimit.NewTokenBucketLimiter | http/middleware/rate_limit.go:21-38 | a missing clock panics; otherwise a fresh limiter with no buckets |
| RateLimit.CleanupKeepsRecent | http/middleware/rate_limit.go:99-118 | a cleanup keeps buckets unchanged, drops a bucket only when due and it is more than two windows old, and keeps every bucket refilled within two windows |
| RateLimit.CleanupAtMostOncePerInterval | http/middleware/rate_limit.go:102-117 | buckets are dropped only when a previous cleanup happened at least an interval ago, and the cleanup time becomes now |
| RateLimit.After | http/middleware/rate_limit.go:175-181 | the kept requests are exactly those after the window start, never more than before |
| RateLimit.AfterAfter | http/middleware/rate_limit.go:175-181 | filtering by an earlier start and then a later one is filtering by the later one |
| RateLimit.AfterSnoc | http/middleware/rate_limit.go:175-181 | filtering one more request appends it iff it is after the window start |
| RateLimit.Admit | http/middleware/rate_limit.go:164-191 | the stored requests become those still in the window; the request is allowed iff fewer than the limit remain, and it is then recorded |
| RateLimit.TraceWindow | http/middleware/rate_limit.go:158-192 | with a positive window and a clock that does not go back, a key's stored requests are its allowed requests in the last window, at most the limit |
| RateLimit.WindowMoves | http/middleware/rate_limit.go:175-183 | as time moves forward the stored window and all allowed requests filter to the same requests |
| RateLimit.TraceStep | http/middleware/rate_limit.go:175-189 | one request keeps the stored window equal to the allowed requests in the window and within the limit |
| RateLimit.SlidingWindowLimiter.constructor | http/middleware/rate_limit.go:126-142 | the limiter holds the limit, the window and the cleanup interval, with no windows and no cleanup yet |
| RateLimit.SlidingWindowLimiter.CleanupIfNeeded | http/middleware/rate_limit.go:205-230 | the first call only records the time; once an interval has passed, empty windows and windows whose last request is more than two windows old are dropped |
| RateLimit.SlidingWindowLimiter.Allow | http/middleware/rate_limit.go:158-192 | after the cleanup the key's window is replaced by the result of admitting the request, and the answer is that admission's |
| RateLimit.SlidingWindowLimiter.Reset | http/middleware/rate_limit.go:194-199 | the key's window is dropped and nothing else changes |
| RateLimit.KeepAfter | http/middleware/rate_limit.go:175-181 | the loop keeps the requests after the window start, in order |
| RateLimit.NewSlidingWindowLimiter | http/middleware/rate_limit.go:126-142 | a missing clock panics; otherwise a fresh limiter with no windows |
| RouterUtility.SplitPath | http/router_utility.go:157-175 | the first piece is empty, no piece holds a slash, a blank path gives the single empty piece, and an empty last piece happens only for the root |
| RouterUtility.SplitLeadingSlash | http/router_utility.go:163-174 | a path starting with a slash splits into an empty first piece and more |
| RouterUtility.SplitLastNonEmpty | http/router_utility.go:167-174 | after trimming trailing slashes only the root ends in an empty piece |
| RouterUtility.SplitLastPiece | http/router_utility.go:174 | a string not ending in the separator has a non-empty last piece |
| RouterUtility.SplitPathJoins | http/router_utility.go:157-175 | joining the pieces again gives "" for a blank path, and otherwise the trimmed path with a leading slash and its trailing slashes removed, keeping "/" for the root |
| RouterUtility.MatchesMethod | http/router_utility.go:342-354 | true iff no method is listed or the verb is listed |
| RouterUtility.ListContains | http/router_utility.go:347-351 | true iff the value is in the list |
| RouterUtility.MatchesHost | http/router_utility.go:356-362 | true iff no host is expected or the hosts are equal |
| RouterUtility.MatchesScheme | http/router_utility.go:364-376 | true iff no scheme is listed or one equals the scheme ignoring case |
| RouterUtility.AnyEqualFold | http/router_utility.go:369-373 | true iff some listed value equals the value ignoring case |
| RouterUtility.CaptureCatchAll | http/router_utility.go:410-415 | a catch-all records its rest under its own name and nothing else |
| RouterUtility.CatchAllNamedRouteSetsLocale | http/router_utility.go:412-414 | as written, a catch-all named "_route" also sets "_locale"; the corrected capture does not |
| RouterUtility.CaptureCatchAllAsWritten | http/router_utility.go:410-415 | as written: the rest is recorded under the catch-all's name; a catch-all named "_route" also records it under "_locale"; any other name captures as the corrected rule does |
| RouterUtility.MatchSegmentsKeepsParams | http/router_utility.go:378-498 | a match keeps every parameter already captured; the empty pattern matches exactly the empty path |
| RouterUtility.MatchPath | http/router_utility.go:378-498 | the segment loop returns the parameters of the recursive pattern match, or no match; catch-alls are captured by the corrected rule |
| RouterUtility.StaticPatternMatchesEqualPath | http/router_utility.go:485-497 | a pattern of static segments matches exactly the equal path and captures nothing |
| RouterUtility.StaticPrefixConsumed | http/router_utility.go:485-490 | a shared static prefix is consumed without changing the outcome |
| RouterUtility.ParamCapturesOneSegment | http/router_utility.go:459-482 | a required parameter without a requirement captures exactly one segment under its name |
| RouterUtility.OptionalParamMayBeAbsent | http/router_utility.go:444-453 | an optional parameter at the end matches a path that stops before it, capturing nothing |
| RouterUtility.CatchAllCapturesRest | http/router_utility.go:392-417 | a trailing catch-all captures the remaining segments joined by slashes |
| RouterUtility.ExtraSegmentsDoNotMatch | http/router_utility.go:493-495 | a static pattern does not match a longer path |
| RouterUtility.NestLayers | http/router_utility.go:148-155 | wrapping a handler layers the middlewares in list order, the first outermost |
| RouterUtility.WrapWithMiddlewares | http/router_utility.go:148-155 | the backwards loop gives the handler nested in the middlewares in list order |
| RouterUtility.DetectScheme | http/router_utility.go:264-291 | a nil request gives "http"; TLS gives "https"; a non-TLS request without a trusting policy, with no proxy list, from an untrusted peer or with an empty header gives "http"; otherwise the lowered forwarded protocol |
| RouterUtility.DetectSchemeUsesForwardedProtoOnlyWhenTrusted | http/router_utility.go:254-291 | the answer is the lowered forwarded protocol iff the policy trusts a proxy list that holds the peer and the header is non-empty, or the protocol happens to equal the fixed answer |
| Router.IndexKept | http/router.go:215-294 | a node that only grew keeps every route index it held |
| Router.OnlyAddsTransitive | http/router.go:215-294 | two registration steps that each add only one route's index add only that index |
| Router.ExtendsTransitive | http/router.go:215-294 | growing the tree twice grows it |
| Router.CollectMonotone | http/router.go:456-497 | a candidate collected from a tree is still collected once the tree has grown |
| Router.MatchFits | http/router.go:218-293 | every path a pattern matches fits the pattern's shape in the tree |
| Router.RouteMayEndHere | http/router.go:296-328 | the loop says whether the remaining pattern can match an empty rest of the path |
| Router.MayEndHereShape | http/router.go:296-328 | the rest may end here iff it is optional parameters, then nothing or a catch-all |
| Router.LinkMonotone | http/router.go:235-288 | an existing child link survives growth of the tree |
| Router.AppendIndex | http/router.go:231-291 | recording a route index at a node grows the tree by that index alone |
| Router.AttachChild | http/router.go:235-285 | creating a missing child appends one node, linked under the given kind, adding no index |
| Router.TrailFactsMonotone | http/router.go:218-293 | the facts about the nodes visited so far survive growth of the tree |
| Router.TrailCollects | http/router.go:456-497 | a path fitting the rest of the pattern from a visited node collects the route there |
| Router.StepFacts | http/router.go:218-293 | one step of the registration loop extends the visited trail and keeps its facts |
| Router.CatchAllFacts | http/router.go:258-264 | recording a catch-all finishes the registration with its facts |
| Router.TrailCollectsAll | http/router.go:215-294 | after registration every path fitting the pattern collects the route from the root |
| Router.CollectFromNodes | http/router.go:456-497 | every collected candidate is an index recorded at some node |
| Router.Anchor | http/router.go:123-129 | the regex is anchored at both ends, and an anchored regex is kept |
| Router.AnchorIdempotent | http/router.go:123-129 | anchoring twice is anchoring once |
| Router.CompiledRequirements | http/router.go:114-147 | the requirements kept are those with a non-empty key and value, each anchored |
| Router.NonEmptyKeys | http/router.go:149-165 | the defaults and attributes keep exactly the entries with a non-empty key |
| Router.RouteAttributes | http/router.go:158-182 | the caller's attributes without an empty key, overlaid with the name, pattern, methods, host, schemes and locales when given |
| Router.NormalizedPattern | http/router.go:108-112 | the stored pattern is never empty and starts with a slash |
| Router.CompileRequirements | http/router.go:114-147 | compiled without error iff no requirement's anchored regex is invalid; an error names an invalid one |
| Router.IndicesAfterRegistration | http/router.go:201-212 | indexing a new route keeps every tree index pointing at a registered route with segments |
| Router.CompleteAfterRegistration | http/router.go:201-212 | indexing the new route for every fitting path keeps every route reachable from the root |
| Router.WithDefaults | http/router.go:406-410 | the parameters gain each default whose key is missing, and keep their own values |
| Router.BestUnique | http/router.go:412-421 | at most one route is the highest-priority, first-registered matching route |
| Router.AllowedAmong | http/router.go:399-403 | a method is allowed iff some candidate fails only on the method and lists it |
| Router.ScanAllowed | http/router.go:352-422 | the candidate loop gathers exactly the methods of candidates that fail only on the method |
| Router.ScanFinds | http/router.go:352-422 | the loop finds a best route iff some candidate matches |
| Router.ScanBest | http/router.go:412-421 | the loop's best route is a matching candidate that no other matching candidate outranks |
| Router.FillDefaults | http/router.go:406-410 | the loop fills in exactly the missing defaults |
| Router.NamesStillRegistered | v2/http/route_registry.go:49-69 | a new name joins the registered names and keeps names unique |
| Router.RegistrationKeepsInvariant | http/router.go:184-212 | registering a route keeps the route list, name index and tree consistent, every route reachable |
| Router.Router.constructor | http/router.go:203-205 | an empty router with no tree |
| Router.Router.RegisterRouteInTree | http/router.go:215-294 | the tree only grows by this route's index, and every path fitting the pattern then collects it |
| Router.Router.RegisterSegment | http/router.go:218-292 | one segment either records a catch-all and finishes, or descends to the child of its kind, recording the index at the last segment or where an optional parameter may end |
| Router.Router.RecordIfRouteMayEnd | http/router.go:229-233 | an optional parameter records the route at the current node when the rest may end there |
| Router.Router.DescendTo | http/router.go:235-291 | the child of the segment's kind exists afterwards, and the last segment records the route there |
| Router.Router.RecordCatchAll | http/router.go:258-263 | the catch-all child exists afterwards and records the route |
| Router.Router.AddRoute | http/router.go:91-213 | a nil handler panics; an invalid requirement panics naming it; a duplicate name panics; otherwise the built route is appended, named in the index and the tree grows; on a panic nothing changes |
| Router.Router.Register | http/router.go:184-212 | the route list and name index grow by the route and the router stays consistent |
| Router.Router.CandidatesExact | http/router.go:444-497 | every candidate is a registered route with segments, and every such route that the request reaches is a candidate |
| Router.Router.EvaluateCandidate | http/router.go:360-404 | one candidate's host, scheme, path, locale and method checks give its outcome |
| Router.Router.Match | http/router.go:330-442 | a handler is returned iff some route matches, and then the best route's handler, parameters with defaults and attributes; otherwise the sorted methods that would have matched, or nothing |
| Router.Router.NoCandidateAnswer | http/router.go:338-341 | with no candidate the answer is no match and no attributes |
| Router.Router.UnmatchedAnswer | http/router.go:424-439 | with no best route the answer lists the sorted allowed methods, or nothing |
| Router.Router.UnmatchedNone | http/router.go:424 | no best route means no route matches |
| Router.Router.UnmatchedAllowed | http/router.go:399-403 | the gathered methods are the allowed methods of all routes |
| Router.Router.MatchedAnswer | http/router.go:441 | a best route gives its handler, parameters and attributes |
| Router.Router.RankCandidates | http/router.go:343-422 | the candidate loop computes the scan, and its best route's handler, parameters with defaults and attributes |
| Router.Router.NoCandidateMatching | http/router.go:339-341 | when no route is a candidate, no route matches |
| Router.Router.MatchingIsPicked | http/router.go:352-422 | every matching route is among the candidates the loop considers |
| Router.Router.AllowedFromCandidates | http/router.go:399-403 | the methods gathered from the candidates are those of all routes |
| Router.Router.BestFromCandidates | http/router.go:412-421 | the best candidate is the best route overall |
| UrlGenerator.ValueFor | v2/http/url_generator.go:53-60 | a given parameter wins, then a default; no value iff neither exists |
| UrlGenerator.NonEmpty | v2/http/url_generator.go:191-197 | keeps only non-empty pieces, and keeps all of them when none is empty |
| UrlGenerator.CatchAllSegments | v2/http/url_generator.go:184-198 | a catch-all value yields non-empty segments without slashes |
| UrlGenerator.Contribution | v2/http/url_generator.go:40-203 | a static part is kept; a missing required parameter, a failed requirement, an unnamed or missing wildcard, a wildcard with a slash or a failed wildcard requirement are errors; an optional parameter may be skipped; a catch-all contributes its value's segments |
| UrlGenerator.PathOf | v2/http/url_generator.go:206-210 | the path starts with a slash, joins the parts after it, and is "/" iff there is nothing to join |
| UrlGenerator.Generate | v2/http/url_generator.go:22-211 | an unknown route name is the not-found error, and only then; a generated path starts with a slash |
| UrlGenerator.FinishNeverNotFound | v2/http/url_generator.go:40-204 | the part loop never reports a missing route |
| UrlGenerator.GeneratePath | v2/http/url_generator.go:22-211 | the method computes the generation function |
| UrlGenerator.ResultParts | v2/http/url_generator.go:40-204 | the loop over the parts after the first computes the part function |
| UrlGenerator.PartValues | v2/http/url_generator.go:45-203 | one part's contribution as the function states it |
| UrlGenerator.ParamValues | v2/http/url_generator.go:45-95 | a parameter part's contribution |
| UrlGenerator.WildcardValues | v2/http/url_generator.go:97-201 | a wildcard part's contribution |
| UrlGenerator.CatchAllValues | v2/http/url_generator.go:184-198 | the catch-all loop keeps the non-empty pieces of the trimmed value |
| UrlGenerator.NonEmptySnoc | v2/http/url_generator.go:191-197 | one more piece is kept iff it is non-empty |
| UrlGenerator.StaticPartsGenerateThemselves | v2/http/url_generator.go:203 | static parts are copied unchanged |
| UrlGenerator.CatchAllCanonical | v2/http/url_generator.go:184-198 | a value without outer or double slashes generates its own segments and joins back to itself |
| UrlGenerator.GeneratedPathSplitsBack | v2/http/url_generator.go:206-210 | a generated path of slash-free, non-empty parts splits back into those parts |
| UrlGenerator.JoinLastChar | v2/http/url_generator.go:210 | joining ends with the last piece's last character |
| UrlGenerator.StaticRouteRoundTrip | v2/http/url_generator.go:22-211 | a static route generates its own pattern, which splits back into the route's parts |
| UrlGenerator.PartsSplitBack | v2/http/url_generator.go:34 | the normalised parts of a pattern survive generating and splitting again |
| UrlGenerator.StaticRouteGenerates | v2/http/url_generator.go:22-211 | a static route generates the path of its parts, whatever the parameters |
| UrlGenerator.CatchAllExample | v2/http/url_generator.go:184-198 | the catch-all value "/a//b/c/" yields the segments a, b, c |
| UrlGenerator.QueryValues | v2/http/url_generator.go:219-226 | the query keeps exactly the entries with a non-empty key |
| UrlGenerator.Url | v2/http/url_generator.go:228-233 | an empty query string leaves the path alone; otherwise it follows a question mark |
| UrlGenerator.GenerateUrl | v2/http/url_generator.go:213-234 | a path error is returned as is; otherwise the path with the encoded non-empty-key query |
| UrlGenerator.FilterQuery | v2/http/url_generator.go:219-226 | the loop computes the query values |
| ValidationRule.SplitByTopLevelComma | validation/validation_rule.go:16-64 | the character loop returns exactly the parts of the top-level splitter specification |
| ValidationRule.TopLevelPartsJoin | validation/validation_rule.go:16-64 | joining the parts with commas gives back the input: no character is lost or invented |
| ValidationRule.TopLevelPlain | validation/validation_rule.go:16-64 | with no backslash or parenthesis every comma splits, as a plain split on ',' |
| ValidationRule.TopLevelEscape | validation/validation_rule.go:24-34 | a backslash and the character after it are kept literally, even when that character is a comma or a parenthesis |
| ValidationRule.TopLevelGroup | validation/validation_rule.go:36-56 | a parenthesised group whose inside has no parentheses is kept whole, commas included, and the depth returns to zero |
| ValidationRule.TopLevelCallIsOnePart | validation/validation_rule.go:36-63 | a call `name(...)` with commas inside is one top-level part |
| ValidationRule.SplitByCommaOutsideRegexMeta | validation/validation_rule.go:66-149 | the character loop returns exactly the parts of the regex-aware splitter specification |
| ValidationRule.MetaPartsJoin | validation/validation_rule.go:66-149 | joining the parameter pieces with commas gives back the input |
| ValidationRule.MetaPlain | validation/validation_rule.go:66-149 | with no escape, quote, bracket or brace every comma splits |
| ValidationRule.MetaStepShape | validation/validation_rule.go:76-144 | one character either starts a new piece (a comma outside brackets, braces and quotes) or is appended to the current piece |
| ValidationRule.MetaGroup | validation/validation_rule.go:105-140 | a `[...]` or `{...}` group, or a quoted run, keeps its commas inside the current piece |
| ValidationRule.MetaGroupIsOnePart | validation/validation_rule.go:66-149 | a comma-free text around one bracketed, braced or quoted group is a single parameter piece |
| ValidationRule.RegexMetaKeepsCommas | validation/validation_rule.go:105-140 | `pattern=^[a,b]$` and `pattern=^a{1,2}$` are not split at their commas |
| ValidationRule.ParamOf | validation/validation_rule.go:244-276 | a blank pair is skipped; a pair without '=' or with an empty trimmed key is malformed; otherwise key and value are trimmed |
| ValidationRule.Params | validation/validation_rule.go:244-277 | each raw pair is read independently, in order |
| ValidationRule.ReadPair | validation/validation_rule.go:244-277 | one pair step fails on a malformed pair, leaves the map alone on a blank one and else stores the key |
| ValidationRule.ParseParamPairs | validation/validation_rule.go:243-277 | the pair loop returns the specified parameter map, or failure at the first malformed pair |
| ValidationRule.AssembleFails | validation/validation_rule.go:250-274 | the parameter list fails iff some pair is malformed |
| ValidationRule.AssembleKeys | validation/validation_rule.go:262-276 | the map's keys are exactly the keys of the well-formed pairs |
| ValidationRule.AssembleLastWins | validation/validation_rule.go:276 | a key given several times holds the value of its last occurrence |
| ValidationRule.AssignmentOutcome | validation/validation_rule.go:284-312 | `name=value` fails only with the part's syntax error and else yields a rule with a non-empty trimmed name |
| ValidationRule.AssignedPart | validation/validation_rule.go:284-312 | `name=value` yields rule `name` with params["value"] the trimmed value, and is an error when the trimmed name is empty |
| ValidationRule.BarePart | validation/validation_rule.go:315-320 | a part without '=' or parentheses is a rule of that trimmed name with no parameters |
| ValidationRule.CallOutcome | validation/validation_rule.go:187-282 | a call part fails only with the part's syntax error and else yields a rule with a non-empty trimmed name |
| ValidationRule.CallShapeCounts | validation/validation_rule.go:179-200 | a part of call shape has exactly one '(' and one ')' |
| ValidationRule.CallShapeIndices | validation/validation_rule.go:199-239 | in a part of call shape '(' follows the name and ')' is the last character, so name and inside slice back out |
| ValidationRule.CallSyntax | validation/validation_rule.go:179-282 | a part with a parenthesis parses iff it is `name(inside)` with one of each parenthesis, ')' last, a non-empty name and a well-formed parameter list |
| ValidationRule.CallBetweenOk | validation/validation_rule.go:199-243 | a call that parses had '(' before ')', ')' last, a non-empty name and well-formed parameters |
| ValidationRule.ParsePart | validation/validation_rule.go:169-320 | a blank part is ignored; an error carries the trimmed part; a rule's name is non-empty and trimmed |
| ValidationRule.ParseRulePart | validation/validation_rule.go:169-320 | the per-part code computes the part's specified outcome |
| ValidationRule.ParseAssignmentPart | validation/validation_rule.go:284-313 | the `name=value` branch computes the specified assignment outcome |
| ValidationRule.ParseCallPart | validation/validation_rule.go:187-282 | the parenthesis branch computes the specified call outcome |
| ValidationRule.CallBetweenPart | validation/validation_rule.go:202-282 | the index checks and the parameter loop compute the specified call outcome |
| ValidationRule.CallPartParams | validation/validation_rule.go:239-278 | an empty inside gives no parameters, otherwise the specified parameter map or failure |
| ValidationRule.Outcomes | validation/validation_rule.go:168-170 | every top-level part is parsed independently, in order |
| ValidationRule.CollectOk | validation/validation_rule.go:169-323 | the tag parses iff no part is an error |
| ValidationRule.CollectFirstError | validation/validation_rule.go:187-307 | a failing tag reports the error of its first failing part, and every earlier part succeeded |
| ValidationRule.CollectStopsAtError | validation/validation_rule.go:188-197 | parts after the first error have no effect on the result |
| ValidationRule.CollectRules | validation/validation_rule.go:280-320 | each rule comes from one part, so there are no more rules than parts |
| ValidationRule.BlankPartIgnored | validation/validation_rule.go:170-173 | removing a blank part does not change the result |
| ValidationRule.CollectAllRules | validation/validation_rule.go:169-323 | when every part yields a rule the result is those rules in order |
| ValidationRule.ParseValidationTag | validation/validation_rule.go:161-324 | the tag parser computes the specified rule list or the first syntax error |
| ValidationRule.EmptyTag | validation/validation_rule.go:165-173 | the empty tag yields no rules and no error |
| ValidationRule.ParamFormatted | validation/validation_rule.go:244-276 | a written `key=value` pair reads back as that key and value |
| ValidationRule.CallParamsFormatted | validation/validation_rule.go:239-278 | a written parameter list reads back as the map of its pairs, last key winning |
| ValidationRule.PartFormatted | validation/validation_rule.go:169-320 | a written bare name, assignment or call part parses back to the rule it means |
| ValidationRule.TopLevelPartsFormats | validation/validation_rule.go:16-64 | a tag written from parts splits back into exactly those parts |
| ValidationRule.ParseTagFormatted | validation/validation_rule.go:161-324 | round trip: a tag written from well-formed rules parses back to those rules |
| ValidationRule.SinglePartTag | validation/validation_rule.go:165-324 | a one-part tag yields that part's rule alone |
| ValidationRule.OneCallTag | validation/validation_rule.go:165-282 | a call with one `key=value` parameter yields one rule with that single parameter |
| ValidationRule.RegexTagBracket | validation/validation_rule.go:165-282 | `regex(pattern=^[a,b]$)` yields one regex rule whose pattern keeps the comma |
| ValidationRule.RegexTagBrace | validation/validation_rule.go:165-282 | `regex(pattern=^a{1,2}$)` yields one regex rule whose pattern keeps the comma |
| ApplicationCli.RegistrationKeepsValid | application/application_cli.go:31-82 | registration fails exactly after boot, for a nil command, an empty name or a duplicate name; otherwise it appends the command last and names stay non-empty and distinct |
| ApplicationCli.Application.constructor | application/application_cli.go:31-82 | a new application is not booted and has no commands |
| ApplicationCli.Application.RegisterCliCommand | application/application_cli.go:31-82 | a refused registration reports its reason and leaves the commands unchanged; an accepted one appends the command |
| ApplicationCli.StopIndex | application/application_cli.go:168-178 | the first "--", or the length: no earlier argument is "--" |
| ApplicationCli.VerbosityLevel | application/application_cli.go:180-201 | a short verbosity flag is a dash followed by one or more `v`s, and its level is the number of `v`s |
| ApplicationCli.RewrittenIsLongFlag | application/application_cli.go:200-211 | a rewritten flag is not itself a short flag, and an argument is rewritten to "--" only if it was "--" |
| ApplicationCli.NormalizeIdempotent | application/application_cli.go:160-219 | normalising the arguments twice gives the same result as normalising once |
| ApplicationCli.StopIndexSame | application/application_cli.go:168-178 | two argument lists with "--" at the same positions stop at the same index |
| ApplicationCli.OnlyVsAfterPrefix | application/application_cli.go:191-198 | the rune loop is true iff every character after "-v" is a `v` |
| ApplicationCli.NormalizeArgument | application/application_cli.go:180-215 | one argument is rewritten to `--verbosity=N` iff it is a short verbosity flag, and otherwise kept |
| ApplicationCli.NormalizeCliVerbosityArguments | application/application_cli.go:160-219 | the loop rewrites every argument before the first "--" and copies that one and all after it |
| ApplicationCli.Matching | application/application_cli.go:277-283 | every kept command is registered and its lower-case name contains the lower-case name asked for |
| ApplicationCli.MatchingComplete | application/application_cli.go:279-283 | every command whose lower-case name contains the name asked for is kept |
| ApplicationCli.SortByName | application/application_cli.go:285-287 | the matches are sorted by name and are a permutation of the input |
| ApplicationCli.RowsKeepOrder | application/application_cli.go:371-381 | rows of name-sorted commands are in name order |
| ApplicationCli.Shown | application/application_cli.go:342-345 | the shown matches are a prefix of the sorted matches of length min(50, total) |
| ApplicationCli.ShownMatches | application/application_cli.go:277-345 | the shown matches are sorted by name and each is a matching registered command |
| ApplicationCli.SuggestionProceeds | application/application_cli.go:225-248 | no suggestion is made iff there is no command argument, it is blank, a flag, help or h in any case, or a registered name |
| ApplicationCli.NotFoundListsAll | application/application_cli.go:293-340 | the command-not-found error is given iff no name contains the asked name, and then it lists every command's row |
| ApplicationCli.MatchesShape | application/application_cli.go:342-412 | with matches, the total counts all of them, at most 50 rows are printed in name order, and each row is a matching command's |
| ApplicationCli.SuggestCliCommand | application/application_cli.go:221-413 | the suggestion code computes the specified outcome |
| ApplicationCli.HasExactName | application/application_cli.go:244-248 | the loop is true iff some command has exactly the given name |
| ApplicationCli.MatchingOf | application/application_cli.go:277-283 | the filter loop computes the matching commands in order |
| ApplicationCli.RowsOf | application/application_cli.go:310-320 | the row loop gives each command's row, with "-" for a blank description |
| ContainerClose.PoppedDistinct | v2/container/container_close.go:106-127 | the keys popped from the heap are distinct created keys |
| ContainerClose.ClosingOrder | v2/container/container_close.go:94-149 | the specified close order: greatest ready key first until none is ready, then the keys left on cycles in descending order; what it guarantees is stated by the lemmas that follow |
| ContainerClose.ClosingOrderCovers | v2/container/container_close.go:106-149 | the popped keys followed by the cycle keys close every created key exactly once |
| ContainerClose.DependentsFirst | v2/container/container_close.go:62-127 | a dependency is popped only after every created dependent of it has been popped |
| ContainerClose.RemainingWaitOnEachOther | v2/container/container_close.go:129-149 | every key left over is still a dependency of another left-over key, so the leftovers are exactly what a cycle blocks |
| ContainerClose.ClosingOrderUnique | v2/container/container_close.go:94-141 | the greatest-ready-key-first rule and the descending sort of the leftovers fix the close order, whatever the map iteration order |
| ContainerClose.CommonPrefix | v2/container/container_close.go:106-127 | two greedy pop sequences agree on their common length |
| ContainerClose.ReversedDescending | v2/container/container_close.go:136-141 | reversing an ascending key list gives a descending list of the same keys |
| ContainerClose.DescendingUnique | v2/container/container_close.go:136-141 | a descending list is determined by its set of keys |
| ContainerClose.DiamondReady | v2/container/container_close.go:94-127 | in the diamond a depends on b and c, both depending on d: the ready sets as a, c and b close are {a}, {b, c}, {b}, {d}, then none |
| ContainerClose.DiamondOrder | v2/container/container_close.go:94-149 | the diamond closes in the order a, c, b, d with no cycle |
| ContainerClose.DiamondCloseOrder | v2/container/container_close.go:94-149 | a, c, b, d is the only close order of the diamond |
| ContainerClose.Increment | v2/container/container_close.go:74-91 | one dependent's created dependencies each gain one in-degree; no other count changes |
| ContainerClose.CountDependent | v2/container/container_close.go:69-92 | after one more dependent, every in-degree counts the created dependents seen so far |
| ContainerClose.InDegrees | v2/container/container_close.go:62-92 | every created key's in-degree is the number of its created dependents |
| ContainerClose.Greatest | v2/container/container_close.go:260-281 | the heap pops the greatest of the available keys |
| ContainerClose.ReadyAfterRelease | v2/container/container_close.go:108-127 | closing a ready key leaves the other ready keys ready and adds exactly the dependencies whose last pending dependent it was |
| ContainerClose.Decrement | v2/container/container_close.go:118-126 | the dependencies of the closed key each lose one in-degree, and those that reach zero become available |
| ContainerClose.Release | v2/container/container_close.go:108-127 | after one pop the in-degrees count the unclosed dependents and the available keys are exactly the ready ones |
| ContainerClose.GreedyPopsSnoc | v2/container/container_close.go:108-111 | appending the greatest ready key keeps a greedy pop sequence |
| ContainerClose.Drain | v2/container/container_close.go:101-127 | the heap loop pops greedily until no key is ready |
| ContainerClose.RemainingKeys | v2/container/container_close.go:129-141 | the keys with a positive in-degree left are exactly the unpopped ones, in descending order |
| ContainerClose.CloseOrder | v2/container/container_close.go:32-149 | the computed order is the specified closing order |
| ContainerClose.CandidateFor | v2/container/container_close.go:151-188 | a candidate keeps its key; a `service:` key yields one iff its trimmed name is a created service; a key with neither prefix yields an instance with no pointer that is not closeable |
| ContainerClose.ServiceKeyCandidate | v2/container/container_close.go:156-164 | a `service:` key of a created service names that instance |
| ContainerClose.TypeKeyCandidate | v2/container/container_close.go:166-179 | a `type:` key of a created typed instance names that instance |
| ContainerClose.CandidatesOfCreated | v2/container/container_close.go:151-188 | every created key of the close order yields one candidate, in order |
| ContainerClose.CollectCandidates | v2/container/container_close.go:151-188 | the candidate loop computes the specified candidates |
| ContainerClose.CloseCallsShape | v2/container/container_close.go:192-220 | `Close` is called only on closeable candidates, never twice on one pointer, and on every closeable candidate whose pointer is new |
| ContainerClose.CloseCalls | v2/container/container_close.go:192-220 | there are never more `Close` calls than candidates |
| ContainerClose.Failures | v2/container/container_close.go:212-215 | failures are recorded only under keys of the candidates |
| ContainerClose.FailuresShape | v2/container/container_close.go:212-215 | a failure is recorded under a key iff that key's `Close` was called and returned that error |
| ContainerClose.CloseCandidates | v2/container/container_close.go:192-220 | the closing loop makes the specified calls and records the specified failures |
| ContainerClose.Outcome | v2/container/container_close.go:222-246 | no error iff no cycle and no failure; a cycle alone reports its nodes; with failures the error's map is exactly the recorded failures, plus the "dependency cycle detected" entry under the cycle key when there is a cycle |
| ContainerClose.Container.constructor | v2/container/container_close.go:14-30 | a new container is open with no stored error |
| ContainerClose.Container.Close | v2/container/container_close.go:14-254 | the first call closes in the specified order and stores its error; a later call returns the stored error and closes nothing |
| AppAssets.NormalizedAjaxError | v2/.example/public/assets/app.js:7-25 | a thrown error passes through unchanged; a transport failure carries its status, or 0 without one |
| AppAssets.TransportMessage | v2/.example/public/assets/app.js:12-19 | the message is the trimmed first error when that is not blank, else the trimmed status text or "request failed"; it is always trimmed |
| AppAssets.SuccessBody | v2/.example/public/assets/app.js:27-34 | a body is accepted iff its `success` is exactly `true`, and is then returned unchanged |
| AppAssets.SuccessBodyRejects | v2/.example/public/assets/app.js:27-31 | a rejected body throws its first error or "request failed"; a truthy non-boolean `success` is rejected |
| AppAssets.RequestJsonOptions | v2/.example/public/assets/app.js:91-117 | a blank method is refused; otherwise the method is trimmed and upper-cased, the URL kept, and a body with the JSON content type is sent iff data is present and the method is neither GET nor HEAD |
| AppAssets.FirstNamed | v2/.example/public/assets/app.js:159-166 | the first definition from the start position whose trimmed name matches, or the length when none does |
| AppAssets.RouteByNameShape | v2/.example/public/assets/app.js:151-169 | a blank name finds nothing; otherwise the first definition whose trimmed name equals the trimmed name wins, with its trimmed pattern, and nothing is found iff none matches |
| AppAssets.RouteDefinitionByName | v2/.example/public/assets/app.js:151-169 | the search loop computes the specified lookup |
| AppAssets.RouteByName | v2/.example/public/assets/app.js:151-169 | a blank name finds nothing; a found definition carries the trimmed name and a trimmed pattern |
| AppAssets.HexDigit | v2/.example/public/assets/app.js:188 | a percent-escape digit is 0-9 or upper-case A-F and reads back as its value |
| AppAssets.Utf8 | v2/.example/public/assets/app.js:188 | a character encodes to one to four bytes |
| AppAssets.PercentBytes | v2/.example/public/assets/app.js:188 | each byte becomes a three-character escape |
| AppAssets.Utf8Decodes | v2/.example/public/assets/app.js:188 | the bytes are valid UTF-8 for the character: a lead byte announcing the length, continuation bytes in 0x80-0xBF, the length fixed by the code point's range, and decoding gives back the code point |
| AppAssets.PercentBytesDecode | v2/.example/public/assets/app.js:188 | every escape starts with '%' and decoding the escapes gives back the bytes |
| AppAssets.EncodeUriComponent | v2/.example/public/assets/app.js:188 | the encoded value is at least as long as the value and at most twelve times as long |
| AppAssets.EncodeUriComponentShape | v2/.example/public/assets/app.js:188 | an encoded value holds only unreserved characters and escapes, never ':', and text of unreserved characters is unchanged |
| AppAssets.EncodeCharLength | v2/.example/public/assets/app.js:188 | an unreserved character is kept, any other becomes one `%XX` escape per UTF-8 byte |
| AppAssets.ReplaceAllKeepsColonFree | v2/.example/public/assets/app.js:187-190 | a `:key` token cannot occur in a path without ':', so splitting and joining on it changes nothing |
| AppAssets.NoPlaceholderUnchanged | v2/.example/public/assets/app.js:171-194 | a path without ':' is unchanged by any parameters |
| AppAssets.SubstitutedCases | v2/.example/public/assets/app.js:181-190 | a blank key is skipped, and a path that is just `:key` becomes the encoded trimmed value |
| AppAssets.ReplaceAllJoined | v2/.example/public/assets/app.js:187-190 | replacing every token in pieces joined by the token, when no piece holds ':', gives the pieces joined by the value |
| AppAssets.SubstitutedEveryPlaceholder | v2/.example/public/assets/app.js:181-190 | every occurrence of `:key` is replaced by the encoded trimmed value, wherever it stands in the path |
| AppAssets.PlaceholderPrefixRewritten | v2/.example/public/assets/app.js:187-190 | the replacement is textual: `:id` inside `:idx` is rewritten too, so "/users/:idx" with id 7 becomes "/users/7x" |
| AppAssets.PathFromPattern | v2/.example/public/assets/app.js:171-194 | a blank pattern gives "", and a trimmed pattern without ':' is returned unchanged |
| AppAssets.GeneratePathFromPattern | v2/.example/public/assets/app.js:171-194 | the loop computes the specified path: a blank pattern gives "", otherwise each key's placeholder is replaced in turn |
| AppAssets.RoutePathShape | v2/.example/public/assets/app.js:196-208 | an unknown route throws with the name as given; a found route with a blank pattern throws; a returned path is never empty |
| AppAssets.StaticRoute | v2/.example/public/assets/app.js:196-208 | a found route whose pattern has no placeholder yields its pattern unchanged |
| AppAssets.RoutePath | v2/.example/public/assets/app.js:196-208 | an unknown route is the error naming the route as given; a generated path is never empty |

## Left out

- Concurrency: the mutexes of the cache, the limiters, the dispatcher and the container are not modelled. Every call runs alone.
- Copies and aliasing: `Rules()`, `Match`, the session's `All` and the bag's lists return values. Sequences and maps are values in Dafny, so "returns a copy" holds by construction and is not stated.
- Go's `TrimSpace`, `ToLower` and `ToUpper` are modelled on ASCII white space and ASCII letters only. Go also handles Unicode.
- AppAssets: JavaScript's `trim()` and `toUpperCase()` are modelled on ASCII too. JavaScript's `trim()` also removes U+00A0, U+FEFF, U+2028, U+2029 and the other Unicode space separators, and `toUpperCase()` maps non-ASCII letters and can lengthen a string ('ß' becomes "SS"); route names, patterns, parameter values and request methods holding such characters are not modelled.
- Go's byte lengths and byte slicing are taken character by character. This agrees with Go on ASCII text only; a truncation can cut a UTF-8 sequence in Go but not in the model.
- Printing, rendering and logging are not modelled: the table printer's output, the CLI suggestion table, the not-found header and the exception logging.
- Cache: storage errors and the time-to-live of the cache's callers are left out. The clock is the `now` parameter.
- Cache: the LRU list is a sequence of keys, most recent first, not a linked list.
- Router.Router.AddRoute: v2/http/route_registry.go:49-69 appends the route before it panics on a duplicate name. The model treats every panic as leaving the router unchanged, so it does not say what a recovered panic leaves behind.
- Router: the requirements of a route are compiled in map order; which invalid requirement is reported first when there are several is not modelled.
- The v1 route registry file is not part of this model; v2/http/route_registry.go is cited for registration instead.
- Router: the tree's nodes live in an arena (a sequence indexed by child numbers) instead of pointers.
- RouterUtility.DetectScheme: isRequestFromTrustedProxy (http/router_utility.go:293-340) is the request's boolean `fromTrustedProxy`; address and CIDR parsing are left out.
- RouterUtility: wrapControllerWithContainer (http/router_utility.go:18-146) is reflection over the container and is not modelled.
- RouterUtility.MatchPath: it uses the corrected catch-all capture, RouterUtility.CaptureCatchAll, not the code as written at http/router_utility.go:412-414. A catch-all named `_route` therefore does not write `_locale` here; RouterUtility.CaptureCatchAllAsWritten and the Findings table cover the code as written.
- Router.Router.Match: it matches through RouterUtility.MatchPath and so inherits the corrected catch-all capture. For a catch-all named `_route` its parameters lack the `_locale` entry the code as written adds.
- UrlGenerator: v2/http/url_generator.go:34 calls the version 2 package's `splitPath`, whose file is not part of this model. The generator uses the version 1 RouterUtility.SplitPath (http/router_utility.go:157-175) in its place.
- Regular expressions are matching functions given as parameters, in the router, the URL generator and access control. Whether a pattern compiles is a predicate parameter.
- UrlGenerator.GenerateUrl: only the key filtering is modelled; `url.Values.Encode` is the `encode` parameter.
- EventDispatcher.Dispatcher.Dispatch: what a listener does is the `outcome` parameter; panic recovery, logging and the reflection names of listeners are left out.
- EventDispatcher: subscribers and their listener pointers are given values, not found by reflection.
- RateLimit.TokenBucketLimiter.Allow: the source reads the clock up to three times (http/middleware/rate_limit.go:100 in the cleanup, 66 for a new bucket, 71 for the refill); the model passes one `now` to both `CleanupIfNeeded` and the bucket step, so time passing between those reads is not modelled.
- RateLimit.SlidingWindowLimiter.Allow: the source reads the clock twice (http/middleware/rate_limit.go:206 in the cleanup, 164 for the window); the model passes one `now` to both `CleanupIfNeeded` and the `Admit` step, so time passing between those reads is not modelled.
- RateLimit: the sliding window's per-key slices are sequences of times.
- SessionManager: the storage is a map that never fails; storage errors and the time-to-live are left out.
- SessionManager.Manager.NewSession: the random ids are a parameter sequence of candidate ids.
- Session: `Has`, `All`, `IsModified` and `IsCleared` are plain reads of the state and have no members of their own.
- Bag: the bag is modelled as a map from names to values. Its other getters and setters are not modelled.
- Parse: `time.ParseDuration` and `strconv.ParseFloat` are the parameters `parseDuration` and `parseFloat`. Only the integer-relevant cases are modelled.
- Parse: floats are real numbers. NaN and the infinities are not represented: in Go a NaN float fails the `math.Trunc` test (internal/parse.go:48) and is an error, while an infinity passes it. Go's `int64(x)` of an integral float outside the int64 range (internal/parse.go:52) is implementation-defined; the model returns the exact integer instead. Parse.IntFromFloat states the real-number behaviour only.
- Parse: the error message text is left out; errors carry the parameter name, the target kind and the value.
- TablePrinter: `Print`, `printSeparator` and `printRowWrapped` write to an `io.Writer` and are not modelled; the model stops at the widths, the wrapped cells and the rows that are printed.
- TablePrinter.IsSeparatorRow: defined directly as the source's test, with no contract of its own.
- ApplicationCli: the `output.FlagNameVerbosity` constant is taken to be "verbosity"; its file is not part of this model.
- ApplicationCli.SortByName: `sort.Slice` is not stable; the model sorts stably. The two agree because registered names are distinct.
- ApplicationCli: running commands, the output options and the start time of the suggestion are left out.
- ContainerClose: the heap is modelled as the set of ready keys that pops its greatest key. This is the order that `nodeKeyHeap.Less` gives.
- ContainerClose: typed instances are keyed by their type string, and `pointerKeyOf`'s reflection is the instance's optional `pointer` field. Two distinct types with the same `String()` (say `config.Config` from two packages named `config`) cannot be represented: in v2/container/container_close.go:44-48 and 166-178 both `type:` keys then resolve through `typeStringToType` to whichever type was written last, so the other type's instance is never closed, and the model does not capture that.
- ContainerClose: the first descending sort of `createdNodeKeys` (v2/container/container_close.go:50-55) is not modelled. It fixes only the iteration order of the loops that follow, and those results do not depend on it.
- AppAssets: JavaScript values are `Option`s. `String()` coercion of non-string values, `Number(NaN)` statuses and an `errors` that is not an array are not modelled beyond "absent".
- AppAssets: the `Object.keys` order of the path parameters is the order of a parameter sequence, and `window.melodyRoutes` is a parameter.
- AppAssets: the DOM and jQuery code (`setStatus`, `resolveDataRoutes`, `initAuthHeader`) and the asynchronous AJAX transport are not modelled.
- ValidationRule: `parseInt` (validation/validation_rule.go:151-159) wraps `fmt.Sscanf` and is not used by the tag parser; it is not modelled.

## Findings

| source | as written | input that shows it | evidently intended | confidence | as-written member | corrected member |
|---|---|---|---|---|---|---|
| http/router_utility.go:412-414 | after capturing a catch-all, the code tests `RouteAttributeName == wildcardName`, so a catch-all named `_route` also writes its value into `_locale` | pattern `/*_route...` with path `/x`: the parameters get `_locale` = "x", which the router's locale filter then reads | the same test as at lines 433 and 475, `RouteAttributeLocale == wildcardName`, which only re-writes the key already written | high, not executed | RouterUtility.CaptureCatchAllAsWritten (shown by RouterUtility.CatchAllNamedRouteSetsLocale) | RouterUtility.CaptureCatchAll |
