# HLSL linter core, modelled in Dafny

This project models the core of a Visual Studio Code extension that lints HLSL
shaders. The extension runs the DirectX shader compiler on the edited text
and turns the compiler's `file:line:column: severity: message` output into
editor diagnostics. The model covers five parts of `src/extension.ts`:

- **The output parser** (`output_parser.dfy`, module `OutputParser`). The
  `CompilerOutputParser` class buffers the compiler's output as it arrives in
  chunks and cuts it into complete lines. It recognises the lines that name
  the linted file and turns each into a 0-based, offset-shifted diagnostic.
  A line is skipped when its target document line carries a `// @nolint`
  marker. The class is imperative: `Write` runs the source's `while` loop
  over the `data` buffer, and `ProcessLine` appends to `diagnostics`. Both
  are proved against the pure specification `Diagnose`/`ParseLine`.
  Lemmas cover:
  - chunking: however the stream is cut, the same lines are consumed;
  - the round trip from a compiler line to its diagnostic;
  - the suppression marker;
  - the effect of the line offset.
- **The scheduler** (`throttler.dfy`, `delayer.dfy`, `throttled_delayer.dfy`).
  - `Throttler` keeps at most one run in flight and remembers only the
    latest queued factory.
  - `Delayer` debounces: each trigger replaces the task and restarts the
    timer, and the task recorded last runs once when the timer fires.
  - `ThrottledDelayer` hands the debounced factory to a throttler.
  
  Each is a class holding the source's fields, with two changes:
  `Throttler` keeps `queuedPromiseFactory` as `queued` and drops
  `queuedPromise`, which is set exactly while a factory is queued, and
  `ThrottledDelayer` holds its `Delayer` as a field instead of extending
  it. Ghost fields record the runs started so far. Every method is
  proved to move the class's state by a pure step function (`Queued`,
  `Settled`, `Triggered`, `Ticked`, `Cancelled`), and the scheduling
  guarantees are proved about those functions.
- **The run trigger setting** (`run_trigger.dfy`, module `RunTriggers`):
  `RunTrigger.from` and the setting names.
- **The INPUTS directives** (`inputs.dfy`, module `Inputs`). A comment
  `// INPUTS(type): a, b` names symbols for the compiler:
  - a symbol whose type has a zero value in the constructor table
    (`makeTypeContructor`) is passed as `-D name=value`;
  - any other symbol is declared in a prefix of `type name;` lines put in
    front of the text;
  - the parser's line offset is set to minus the number of prefix lines.
  
  `CollectInputs`/`CollectSymbols` are the source's nested loops, and
  `BuildPrefix` is its prefix loop. They are proved against the pure
  definitions `AllSymbols`, `Distinct`, `Undeclared` and `DefineArgs`.
- **JavaScript string operations** the core relies on (`text.dfy`, module
  `Text`): `indexOf`, `split`, `join`, `trim`, `trimLeft`, `startsWith`,
  `substring`, and the division of a stream into complete lines and a
  pending tail. `wrappers.dfy` holds the `Option` type used for
  `null`/`undefined`.

Time is an explicit clock: every scheduler event takes the current time
`now`, and a timer is its deadline. Promises are not modelled as values.
A run is identified by its factory (`TaskId`), and "a promise settled" or
"a timer fired" are events of their own.

## Model

| member | source | states |
|---|---|---|
| OutputParser.SeverityOf | src/extension.ts:232-244 | `warning`, `error` and `note` map to Warning, Error and Hint (each in both directions); every other word maps to Information |
| OutputParser.DecimalRoundTrip | src/extension.ts:225-226 | reading a position numeral the compiler prints for `n` gives back `n` |
| OutputParser.SkipSpaces | src/extension.ts:228 | the `\s*` after `//` skips exactly the maximal run of white space |
| OutputParser.MarkerSuppresses | src/extension.ts:228 | `//`, any white space, `@` and `nolint` in any letter case, anywhere in a line without line terminators, suppresses that line |
| OutputParser.ParseLine | src/extension.ts:216-250 | a line yields a diagnostic only when it starts with the file name and has more than three fields; the diagnostic's line exists in the document and is not suppressed |
| OutputParser.Diagnose | src/extension.ts:210-213 | a sequence of lines yields at most one diagnostic per line, each on an existing, unsuppressed document line |
| OutputParser.ReportRoundTrip | src/extension.ts:216-250 | a line `file:L:C:sev:msg` is readable and yields exactly the diagnostic at line max(0, L-1+offset) and column max(0, C-1), with severity from the left-trimmed `sev` and the trimmed `msg` keeping every `:`; it yields none when that line is suppressed |
| OutputParser.OffsetShiftsOnlyLine | src/extension.ts:225-226 | two offsets give the same column, severity and message; unclamped lines differ by exactly the difference of the offsets |
| OutputParser.DiagnoseAppend | src/extension.ts:210-213 | the diagnostics of `a + b` are those of `a` followed by those of `b` |
| OutputParser.ChunkingIrrelevant | src/extension.ts:207-214 | handing a stream over in any chunks consumes the same lines in order and leaves the same unterminated tail as handing it over at once |
| OutputParser.TwoWritesAsOne | src/extension.ts:207-214 | two `write`s produce the diagnostics of one `write` of both chunks |
| OutputParser.UnterminatedTailNeverParsed | src/extension.ts:210-213 | text after the last newline is never parsed and only waits in the buffer |
| OutputParser.CompilerOutputParser.constructor | src/extension.ts:192-205 | a new parser has an empty buffer, no diagnostics and offset 0 |
| OutputParser.CompilerOutputParser.Write | src/extension.ts:207-214 | the buffer becomes the pending tail of old buffer plus chunk, and the diagnostics of every completed line are appended in order |
| OutputParser.CompilerOutputParser.ProcessLine | src/extension.ts:216-250 | appends exactly the diagnostic `ParseLine` gives for the line, or nothing |
| OutputParser.CompilerOutputParser.GetDiagnostics | src/extension.ts:252-254 | returns the diagnostics gathered so far |
| OutputParser.CompilerOutputParser.SetLineOffset | src/extension.ts:256-258 | sets the offset for later lines; buffer and diagnostics stay unchanged |
| Text.IndexOf | src/extension.ts:210 | the first position of the character, or -1 exactly when it does not occur |
| Text.Substring | src/extension.ts:222 | `substring` from a start beyond the end is empty; otherwise it is the rest of the string |
| Text.Split | src/extension.ts:222 | splitting gives at least one piece, and no piece contains the separator |
| Text.JoinSplit | src/extension.ts:246 | joining the pieces of a split with the separator gives back the string, so the message keeps its `:` |
| Text.SplitJoin | src/extension.ts:222 | splitting a join of separator-free pieces gives back the pieces |
| Text.TrimLeftDropsLeadingSpace | src/extension.ts:232 | `trimLeft` removes the leading white space and nothing else |
| Text.TrimRightDropsTrailingSpace | src/extension.ts:246 | trimming the right end removes the trailing white space and nothing else |
| Text.TrimKeepsCore | src/extension.ts:246 | `trim` keeps a contiguous part with no white space at either end, and everything around it is white space |
| Text.TrimUntouched | src/extension.ts:246 | text without white space at either end is its own trim |
| Text.CompleteLines | src/extension.ts:210-212 | the lines cut from a buffer contain no newline |
| Text.Pending | src/extension.ts:210-212 | what stays in the buffer contains no newline |
| Text.StreamDivision | src/extension.ts:210-212 | a stream is exactly its complete lines, each followed by a newline, and then its pending tail |
| Text.TerminatedLines | src/extension.ts:418 | newline-free lines written with their terminators and a tail are cut back into the same lines and tail |
| Text.LinesAppend | src/extension.ts:208-213 | appending a chunk to a buffer cuts the same lines as cutting the buffer first and the rest after |
| Throttling.Queued | src/extension.ts:27-74 | `queue` starts the factory when nothing is in flight, otherwise makes it the one queued factory; the invariant (at most one run in flight, a queue only behind an active run) is kept and history only grows |
| Throttling.Settled | src/extension.ts:32-71 | when the active run settles, the queued factory starts and the slot empties, or the throttler goes idle; one more run has settled |
| Throttling.NeverOverlaps | src/extension.ts:27-74 | under any sequence of `queue` calls and settlements runs never overlap, and history is only extended |
| Throttling.QueueWhileActive | src/extension.ts:28-30 | while a run is in flight, `queue` calls change only the queued slot, which holds the latest factory |
| Throttling.BurstCoalesces | src/extension.ts:27-52 | however many factories are queued during a run, exactly one starts when it settles: the last one |
| Throttling.SettlesToIdle | src/extension.ts:63-71 | with nothing queued, a settling run leaves the throttler idle |
| Throttling.Throttler.constructor | src/extension.ts:21-25 | a new throttler has nothing active and nothing queued |
| Throttling.Throttler.Queue | src/extension.ts:27-74 | moves the state by `Queued` |
| Throttling.Throttler.Start | src/extension.ts:61 | invoking a factory makes its run the active one and records it |
| Throttling.Throttler.Settle | src/extension.ts:32-71 | moves the state by `Settled` |
| Delaying.Triggered | src/extension.ts:93-124 | `trigger` records the task, restarts the timer with deadline `now + delay`, runs nothing, and keeps the invariant |
| Delaying.Ticked | src/extension.ts:102-121 | a tick runs at most one task, and runs one exactly when a timer is due |
| Delaying.Cancelled | src/extension.ts:130-136 | `cancel` leaves no timer outstanding and runs nothing |
| Delaying.BurstRemembersLast | src/extension.ts:93-124 | after a burst of triggers the last one alone decides the task and the deadline, and nothing has run |
| Delaying.LastTriggerRunsOnce | src/extension.ts:102-121 | once the deadline of the last trigger passes, its task runs exactly once, the slot empties, and later ticks run nothing |
| Delaying.NothingBeforeDeadline | src/extension.ts:116-121 | before the last trigger's deadline a tick changes nothing |
| Delaying.QuietWithoutTimer | src/extension.ts:116-121 | with no timer outstanding, ticks change nothing |
| Delaying.CancelledNeverRuns | src/extension.ts:130-143 | after `cancel` the task never runs |
| Delaying.Delayer.constructor | src/extension.ts:85-91 | a new delayer stores the default delay and has no task, timer or completion |
| Delaying.Delayer.Trigger | src/extension.ts:93-124 | moves the state by `Triggered`, using the default delay when none is given |
| Delaying.Delayer.IsTriggered | src/extension.ts:126-128 | true exactly while a timer is outstanding |
| Delaying.Delayer.Cancel | src/extension.ts:130-136 | moves the state by `Cancelled` |
| Delaying.Delayer.CancelTimeout | src/extension.ts:138-143 | no timer is outstanding afterwards |
| Delaying.Delayer.Tick | src/extension.ts:102-121 | moves the state by `Ticked` and returns the task that ran, if any |
| ThrottledDelaying.Triggered | src/extension.ts:163-165 | a trigger changes only the delayer |
| ThrottledDelaying.Ticked | src/extension.ts:163-165 | when the timer fires, the recorded factory is queued on the throttler; the invariants of both are kept |
| ThrottledDelaying.Settled | src/extension.ts:32-71 | a settling run changes only the throttler |
| ThrottledDelaying.BurstStartsLatest | src/extension.ts:153-166 | a burst of triggers while nothing runs starts exactly the last factory once its deadline passes |
| ThrottledDelaying.BurstDuringRunQueuesLatest | src/extension.ts:153-166 | a burst during a run leaves the run undisturbed, and the last factory starts when it settles |
| ThrottledDelaying.ThrottledDelayer.constructor | src/extension.ts:157-161 | a new throttled delayer is idle with the given default delay, and its delayer and throttler are newly created objects |
| ThrottledDelaying.ThrottledDelayer.Trigger | src/extension.ts:163-165 | moves the state by `Triggered` |
| ThrottledDelaying.ThrottledDelayer.Tick | src/extension.ts:163-165 | moves the state by `Ticked` |
| ThrottledDelaying.ThrottledDelayer.Settle | src/extension.ts:32-71 | moves the state by `Settled` |
| RunTriggers.From | src/extension.ts:181-189 | `onSave` and `onType` select their triggers (each in both directions); every other value selects `never` |
| RunTriggers.FromName | src/extension.ts:176-189 | each trigger's setting name selects that trigger |
| RunTriggers.NameSelects | src/extension.ts:176-189 | a value selects `onSave` or `onType` exactly when it is that trigger's name |
| Inputs.TypeNameOf | src/extension.ts:358-362 | a directive with a type is about that type; one without a type is about `float` |
| Inputs.MakeTypeConstructor | src/extension.ts:364-385 | the own-entry lookup answers exactly for the table's eight entries, with that entry's text, and `null` for every other type; on the names inherited from `Object.prototype` it differs from the `in` test of line 380 (see Findings) |
| Inputs.VectorEntry | src/extension.ts:369-378 | the table's entry for each 2-, 3- and 4-component `float` and `int` vector is that vector of as many zeros |
| Inputs.TableHoldsZeroValues | src/extension.ts:364-385 | the constructor table gives the zero value of `float`, `int` and their 2-, 3- and 4-component vectors, and nothing for any other type |
| Inputs.MakeTypeConstructorAsWritten | src/extension.ts:380-384 | the `in` test answers for the table's own entries and also for inherited names; it answers `null` only for a type that is neither |
| Inputs.InheritedNameTakenAsKnown | src/extension.ts:380-382 | `constructor` has no zero value, yet the lookup as written does not answer `null` for it |
| Inputs.AsWrittenDiffersOnInherited | src/extension.ts:380-384 | the lookup as written and the own-entry lookup disagree about a type exactly on the inherited names |
| Inputs.Listed | src/extension.ts:387-388 | one symbol per piece of a directive's list, position by position: the piece trimmed, with the directive's type |
| Inputs.SymbolsOfPieces | src/extension.ts:387-388 | a directive names one symbol per comma-separated piece of its list, in order; each name is its piece trimmed, holds no comma, has no white space at either end, and carries the directive's type |
| Text.TrimAddsNothing | src/extension.ts:388 | trimming introduces no character, so a trimmed piece holds no comma |
| Inputs.Names | src/extension.ts:389 | the names of the symbols, position by position |
| Inputs.FirstNamed | src/extension.ts:389 | the first symbol with a given name is one of the symbols and carries that name |
| Inputs.FirstNamedIsFirst | src/extension.ts:389 | no symbol before the one `FirstNamed` gives has its name, as `symbols.find` returns the first match |
| Inputs.DistinctNamesDiffer | src/extension.ts:389-391 | no name is handled twice |
| Inputs.DistinctCoversNames | src/extension.ts:389-391 | every name in the directives is handled |
| Inputs.DistinctKeepsFirst | src/extension.ts:389-394 | each handled symbol is the first one with its name, so its first type wins |
| Inputs.EachSymbolOneSide | src/extension.ts:392-399 | every handled symbol becomes either a `-D` definition (its type has a zero value) or a prefix declaration (it has none), never both |
| Inputs.DefineArgsPairs | src/extension.ts:396-399 | the added arguments are one `-D`, `name=value` pair per defined symbol, in order |
| Inputs.CollectStep | src/extension.ts:389-400 | one more symbol: a new name is recorded and routed by its type; a name seen before changes nothing |
| Inputs.CollectInputs | src/extension.ts:347-402 | the names, the predefined symbols and the arguments are exactly those of the first occurrences of the symbols of all directives, in order |
| Inputs.CollectSymbols | src/extension.ts:387-401 | the loop over one directive's list extends what was collected by that list's symbols |
| Inputs.Declarations | src/extension.ts:418 | one `type name;` line per predefined symbol, in order |
| Inputs.BuildPrefix | src/extension.ts:415-420 | the prefix is the declarations, each followed by a newline, and the line count equals the number of predefined symbols |
| Inputs.PrefixShiftsLines | src/extension.ts:415-424 | the prefixed text's lines are the declarations followed by the text's own lines, with the same pending tail |
| Inputs.PrefixedLine | src/extension.ts:415-424 | line `addedLines + k` of what the compiler reads is line `k` of the text |
| Inputs.PrefixSource | src/extension.ts:415-424 | the parser's line offset becomes minus the number of predefined symbols, its buffer and diagnostics are unchanged, and the compiler reads the declarations, each followed by a newline, in front of the text |
| Inputs.OffsetUndoesPrefix | src/extension.ts:422 | with offset `-addedLines`, the 1-based line number printed for line `addedLines + k` is read back as document line `k` |

## Left out

- The INPUTS regular expression (src/extension.ts:344, 352) is not modelled; regex matching is library behaviour. The model starts from the matched directives, each an optional type name and a symbol list. The `m.length` tests always see three groups, so they are not modelled. The branch of `makeTypeContructor` for an `undefined` type cannot be reached and is not modelled either.
- Splitting a list at `/\s*,\s*/` and then trimming each piece is modelled as splitting at `,` and trimming. Both give the same symbols, because `\s` and `trim` agree on what white space is.
- `localeCompare` is modelled as exact string equality.
- The order of `Object.keys(predefined)` is taken to be insertion order. JavaScript lists integer-like keys first. A symbol named `__proto__` sets the object's prototype instead of adding a key, so it would get no declaration. Neither is modelled.
- The `-I` arguments, the include directories and the file name argument (src/extension.ts:404-413) are not modelled. Neither are the `.ush` `#pragma once` rewrite, the temporary file, spawning the compiler, and deleting the file (src/extension.ts:327-329, 426-475). These are I/O.
- The editor glue is not modelled: the diagnostic collection, event listeners, configuration loading, `activate` and `dispose`, and the choice of a 250 ms delay for `onType` (src/extension.ts:261-314, 479-515).
- `Buffer` decoding is not modelled; chunks are strings. A multi-byte UTF-8 character split across two chunks is therefore not modelled.
- OutputParser.CompilerOutputParser.Write requires every completed line to be readable, and ProcessLine requires its line to be. A readable line has digit-only position fields and a target line inside the document. The model accepts only digit-only fields. `parseInt` in the source also accepts a field that starts with digits, or with white space or a sign before them, and reads its leading number; the model excludes such fields. `lineAt` throws outside the document, which the model also excludes.
- Promises are not values in the model. This leaves out the results and errors the throttler passes on, and the promise that `cancel` leaves unresolved. The continuations of a settled run are taken as one atomic event, and so are a timer's callback and the completion's continuation.
- Timers have no minimum delay, and delays are natural numbers. Node's 1 ms minimum and its coercion of negative delays are not modelled.
- Inputs.CollectInputs / Inputs.CollectSymbols route each new symbol with the corrected own-entry lookup Inputs.MakeTypeConstructor, not with the `typeName in Constructors` test of src/extension.ts:380; so do Inputs.EachSymbolOneSide and Inputs.DefineArgsPairs. They agree with the source on every type except the twelve names inherited from `Object.prototype`. For those, such as `constructor`, the model declares `constructor x;` in the prefix, where the source passes `-D x=function Object() { [native code] }`. The lookup as written is Inputs.MakeTypeConstructorAsWritten (see Findings).
- Inputs.OffsetUndoesPrefix states only what happens to the line number; the offset it is given is the one Inputs.PrefixSource sets. What the parser builds for a whole line at any offset is OutputParser.ReportRoundTrip, and which line the compiler reads there is Inputs.PrefixedLine.
- Positions and line counts are unbounded integers; JavaScript numbers lose precision beyond 2^53.

## Findings

| source | as written | input that shows it | evidently intended | confidence | as-written member | corrected member |
|---|---|---|---|---|---|---|
| src/extension.ts:380-382 | `typeName in Constructors` also holds for names that the object literal inherits from `Object.prototype` | the directive `// INPUTS(constructor): x` gives the argument `-D x=function Object() { [native code] }` instead of the prefix line `constructor x;` | only the table's own eight entries have a zero value | high; not executed | Inputs.InheritedNameTakenAsKnown | Inputs.TableHoldsZeroValues |
