# Verified models of the Pranor tools

This project models the algorithmic core of the Pranor repository in Dafny and proves what that
code promises about all inputs, all runs and all interleavings. `dafny verify dfyconfig.toml`
checks everything.

| file | models |
|---|---|
| FlowAst.dfy, FlowAnalysis.dfy, FlowReturns.dfy, FlowOptimizer.dfy | statements with a trace semantics; the unreachable-code report, the missing-return check and the optimizer's statement passes judged against it |
| Places.dfy | places in nested text and their order |
| Graphs.dfy | walks, cycles and finish orders, shared by the graph searches |
| Workflow.dfy | cyclic step dependencies of a workflow |
| Imports.dfy | statements, the import graph, and what an import takes over from its target |
| LoadTrees.dfy, LoadOrder.dfy, MergedProgram.dfy, NamedImports.dfy, ExportedNames.dfy | load trees: when one fits the files, which files it covers, what the merged program holds of every statement, when requested names are granted |
| LoadFailures.dfy | the points a load gets to, and the one error it can end with |
| Loader.dfy, LoadCases.dfy | loading a program with its imports, in file and in directory mode, proved against the load trees; two concrete projects |
| Options.dfy | values that may be missing |
| Text.dfy, Formatter.dfy | string functions; the source formatter and its brace counter |
| Policy.dfy | the policy compiler |
| Limiters.dfy | the two sliding-window rate limiters |
| Telemetry.dfy | the span buffer shared by span enders, the ticker and shutdown |
| HotReload.dfy | hot reload behind the TCP proxy |
| Cron.dfy | cron fields and the search for the next runs |
| Installer.dfy | package installation with transitive dependencies |

## How the source is read

- Meaning of statements. A block has a set of executions; each is a finite trace of events with an
  outcome (falls through, returns, breaks, continues, throws, or is cut off while still running).
  Conditions that are not literals may go either way and may throw, loops may go on for any number
  of rounds, and a divergent execution shows up as ever longer cut-off traces. A `break` in a match
  arm leaves the match, because the code generator turns a match into a Go `switch`
  (lang/compiler/codegen_stmt.go:479-507). `return`, `break` and `continue` inside `try` propagate
  outwards; the generated code puts both bodies into function literals
  (lang/compiler/codegen_stmt.go:1472-1490), where Go accepts neither of the last two nor a
  `return` with a value.
- Go maps have no iteration order, so the workflow search picks its start nodes arbitrarily and the
  results hold for every choice. The workflow search, the loader and the installer are classes
  whose fields are the maps and sets the source updates.
- Goroutines are modelled as the interleaved steps of a state machine (Telemetry.dfy, HotReload.dfy);
  a critical section is one step.
- Time is an integer number of nanoseconds; the calendar and "two years later" are parameters.
  Texts are Unicode strings; on valid UTF-8 the byte-wise brace counter sees the same characters,
  since all its special characters are ASCII.
- Loading a program is described by a tree of visits. Its rules are local: a file that was not parsed
  before is loaded, one part per statement or match; a file that was parsed before and is not on the
  import path contributes nothing; there is no rule for anything else. The recursive loader with its
  colour table is proved to find that tree, and to fail exactly when there is none. An error is
  justified by a point the load really gets to: a row of steps, begun after the files parsed so far,
  whose first steps went as a fitting row of trees says and whose next step cannot be taken.

## Results that differ from what one might expect

- The missing-return check accepts a function that can fall off its end: a `break` inside a match
  arm leaves the match. `ReturnCheckIsFooled` gives such a body, `ReturnCheckExactness` says exactly
  when it happens.
- The formatter's indent level is not the brace depth: `} else {` loses a level
  (`ElseLosesALevel`). `LevelIsDepthIff` gives the exact condition under which it is.
- Telemetry shutdown with spans in the buffer waits for the mutex it holds. `CloseCanDeadlock` gives
  a run, `CloseCompletesIffEmpty` and `CloseDeadlocks` say exactly when and what follows. Spans that
  pass the enabled check before shutdown and arrive after it stay in the buffer until a whole
  batch of them has gathered (`Orderly`; `LateSpanStays` gives a run).
- A connection behind the hot-reload proxy can be refused (`RefusalHappens`): by an instance that was
  replaced after the connection had read the target and has been sent its interrupt, and by no other
  (`RefusableIffInterrupted`).
- Asking a file for names works only at the first visit of that file, because a later one sees an
  empty program. `DiamondNeedsOrder` gives a diamond that fails or loads depending on the order of two
  imports; `NamesStandIff` and `LoadableIff` say exactly which projects load, and `TextDecides` reads
  it off the text where every file asked for names has one importer.
- An exported declaration does not survive two plain imports: the first one unwraps it, so the second
  one drops it (`ExportLostOnSecondHop`). `MergedExactly` says exactly which statements survive.
- A cron step of zero can keep the field test from ending (`ZeroStepNeverEnds`). `EndsExactly` gives
  the exact condition, and the cron members assume no more than that they end.
- A policy rule whose condition is misspelt becomes a rule without a condition: with `=` for `==`,
  `allow GET /admin if header.role = admin` lets everybody in (`MisspeltTestLetsIn`).
  `HeaderTestIff` says exactly which rule lines ignore headers.
- A package whose archive broke off cannot be repaired by installing it again: its directory exists,
  so it counts as installed, and its dependencies are never looked at (`RetryAfterBroken`).

## Model

| member | source | states |
|---|---|---|
| FlowAst.PrefixesAreCut | lang/compiler/codegen_stmt.go:155-238 | the trace semantics of branches, loops, try and match is closed under observation at every earlier moment, so divergence is visible as ever longer traces |
| UnreachableCode.Analyze | lang/compiler/analyze_flow.go:44-94 | the loop with its `terminated` flag reports exactly the positions `Reports` describes, in that order |
| UnreachableCode.ReportsInTextOrder | lang/compiler/analyze_flow.go:44-94 | these positions are, in text order and once each, exactly those of the statements right behind the first terminator of every block that is entered: the body and else part of an `if`, a loop body, try and catch bodies and match arms, none of them behind a terminator |
| UnreachableCode.PrunePreservesExecutions | lang/compiler/analyze_flow.go:44-94 | deleting everything behind the first terminator of every block, at every nesting level the analysis visits, leaves the set of traces and outcomes unchanged |
| UnreachableCode.PrunedIsSilent | lang/compiler/analyze_flow.go:44-94 | nothing is reported of what is left |
| UnreachableCode.ReportsAreDeleted | lang/compiler/analyze_flow.go:51-63 | every reported position, with multiplicity, is that of a statement deleted by this pruning |
| UnreachableCode.EventsComeFromBlock | lang/compiler/analyze_flow.go:44-94 | executions only produce events at positions that occur in the block |
| UnreachableCode.ReportedNeverRuns | lang/compiler/analyze_flow.go:43-63 | no execution, finished or not, ever touches a statement reported unreachable, provided no other statement has its position |
| UnreachableCode.SilentIffNothingDeleted | lang/compiler/analyze_flow.go:52-63 | on code with known positions the analysis reports nothing if and only if there is nothing to delete |
| MissingReturn.BlockHasReturn | lang/compiler/analyze_flow.go:4-41 | the check with its `hasDefault` loop computes `HasReturn` |
| MissingReturn.SaysYesIff | lang/compiler/analyze_flow.go:4-41 | the check says yes if and only if no chain of blocks, each a branch of the last statement of the one before, leads to an empty block, an `if` without else, a match without default, or a block of another end that holds no `return` |
| MissingReturn.TidyIsAccepted | lang/compiler/analyze_flow.go:4-41 | a body that never falls off its end is accepted, when its end is built of dynamic `if`s, matches, simple statements and returns behind statements that can be run through |
| MissingReturn.OutcomesAreExact | lang/compiler/analyze_flow.go:3-41 | the outcome set computed from the text of a block is exactly the set of outcomes of its executions |
| MissingReturn.ReturnCheckExactness | lang/compiler/analyze_flow.go:4-41 | when the check says yes, some execution still falls off the end if and only if a reachable `break` leaves a match in tail position |
| MissingReturn.ReturnCheckIsFooled | lang/compiler/analyze_flow.go:19-30 | a concrete body that passes the check and has an execution that falls off its end |
| MissingReturn.FunctionBodyReturns | lang/compiler/analyze_flow.go:3-41 | a body that passes the check, has breaks and continues only where they belong and no such break can only return, throw or keep running |
| MissingReturn.ReturnCheckSound | lang/compiler/analyze_flow.go:3-41 | with breaks and continues only inside loops, passing the check alone is enough for that |
| Optimizer.OptimizeStatements | lang/compiler/optimizer.go:29-43 | the block loop, which drops vanished statements and stops after a kept terminator, computes `OptimizeBlock` |
| Optimizer.OptimizePreservesExecutions | lang/compiler/optimizer.go:23-96 | dead-branch and unreachable-code elimination, nested at will, changes no trace and no outcome |
| Optimizer.OptimizedIsClean | lang/compiler/optimizer.go:23-96 | outside match arms no statement is left behind a terminator, and no `if` with a literal condition |
| Optimizer.CleanStays | lang/compiler/optimizer.go:23-96 | a block of which this holds already is left as it is |
| Optimizer.OptimizeKeepsOutcomes | lang/compiler/optimizer.go:23-96 | the possible outcomes of a block are the same before and after optimizing |
| Workflow.ReferencedIffOccurs | lang/compiler/analyze.go:514-542 | an identifier is reported if and only if a chain of visited subexpressions leads to it |
| Workflow.LastBindingWins | lang/compiler/analyze.go:441-467 | the dependency graph holds, for a name bound several times, the references of its last binding |
| Workflow.LetsInTextOrder | lang/compiler/analyze.go:441-467 | the traversal meets the let statements of the body, of else parts, loops and blocks at whatever depth, all of them, once, in text order |
| Workflow.GraphOfText | lang/compiler/analyze.go:441-467 | the graph holds exactly the names bound somewhere in the text, each with the references of the binding that comes last |
| Workflow.Analysis.WalkBlock | lang/compiler/analyze.go:441-467 | the traversal records the let statements of all nested blocks in order |
| Workflow.IndexOf | lang/compiler/analyze.go:479-483 | the search along the path finds the node, so the fallback behind it is unreachable |
| Workflow.Analysis.DetectCycle | lang/compiler/analyze.go:472-495 | in every call the visiting nodes are exactly those on the path; without a result the node is finished after all its dependencies, a result is a closed walk of dependency edges that repeats only its ends |
| Workflow.Analysis.AnalyzeWorkflowDAG | lang/compiler/analyze.go:435-512 | the graph is that of the last bindings in the text; for every visiting order there is one error exactly when it has a cycle, its message names a genuine cycle, and without error the finish order is topological and covers all steps |
| Graphs.TopologicalHasNoCycle | lang/compiler/analyze.go:472-495 | no closed walk starts at a node of a topological finish order |
| Imports.Validate | lang/cmd_build.go:950-976 | a selective import passes exactly when every name is exported; otherwise the error names the first that is not, and says whether it is defined |
| Imports.VisibleExactly | lang/cmd_build.go:978-988 | a plain import takes over the unnamed statements as they are and, of the named ones, exactly the exported, unwrapped |
| Imports.CollectVisible | lang/cmd_build.go:979-988 | the merge loop of a plain import computes `TakeVisible` |
| Imports.CollectAll | lang/cmd_build.go:933-939 | the merge loop of a wildcard import keeps every statement, exports unwrapped |
| LoadTrees.ForestUnique | lang/cmd_build.go:860-995 | for given files and roots there is at most one load tree |
| LoadTrees.EdgeIff | lang/cmd_build.go:891-949 | a file imports another if and only if one of its statements is an import of it or a pattern that matches it |
| LoadTrees.StepsInOrder | lang/cmd_build.go:891-993 | the steps of a file come in the order of its statements |
| LoadOrder.LoadsReached | lang/cmd_build.go:860-882 | a load tree covers exactly the files the roots reach, each once; all of them can be read, every pattern in them matches, and no import cycle is reachable |
| LoadOrder.SoundIffLoads | lang/cmd_build.go:860-949 | up to requested names there is a load tree if and only if everything reachable can be read, every pattern matches and no cycle is reachable |
| MergedProgram.PassExactly | lang/cmd_build.go:978-988 | a statement taken through a sequence of imports: unnamed ones always survive, a named one if and only if every plain import among them still finds an export marker on it, and with how many markers it arrives |
| MergedProgram.SurvivesByMarker | lang/cmd_build.go:978-988 | an unexported declaration survives wildcard imports only; an exported one survives if and only if all imports behind the first are wildcards |
| MergedProgram.MergedExactly | lang/cmd_build.go:889-995 | for every place in the sources, the copies of its statement in the merged program: one, in its exact form, if its file is loaded and it survives the imports between its file and the root, otherwise none |
| MergedProgram.MergedInOrder | lang/cmd_build.go:889-995 | the merged program keeps the order of the text, with what an import brings where the import stands |
| NamedImports.NamesStandIff | lang/cmd_build.go:950-976 | a load tree stands with its requested names if and only if every import that asks for names is the one that loads its target, and the program of the target exports them all |
| NamedImports.LoadableIff | lang/cmd_build.go:860-995 | a project has a load tree with names if and only if it is sound and its named imports are granted in the one tree it has without them |
| NamedImports.NamelessLoadable | lang/cmd_build.go:945-950 | when no reachable import asks for names, soundness alone decides |
| NamedImports.GrantedOnce | lang/cmd_build.go:865-867 | then no two reachable imports ask the same file for names |
| ExportedNames.ExportsExactly | lang/cmd_build.go:950-988 | a loaded program exports a name if and only if some loaded file declares it with more export markers than there are imports between that file and the program's own |
| ExportedNames.ExportsDirectly | lang/cmd_build.go:950-988 | where no statement carries two markers: if and only if the text of the file itself exports the name |
| ExportedNames.TextDecides | lang/cmd_build.go:860-995 | where, besides, every file asked for names has a single importer and is no root, a project loads if and only if it is sound and every requested name is exported by the text of the file it is requested from |
| LoadFailures.JustifiedFails | lang/cmd_build.go:860-995 | a failure at any point a load gets to stops the whole load |
| LoadFailures.OneFailure | lang/cmd_build.go:860-995 | the load of given roots can end with one error only |
| LoadFailures.FailureHasCause | lang/cmd_build.go:861-976 | the file an error names is reached from a root; that of a circular import lies on a cycle, an unreadable file is missing, one that fails to parse is there and cannot be parsed, one with an empty pattern holds it, and a refused name is requested in it |
| LoadCases.DiamondNeedsOrder | lang/cmd_build.go:865-867 | main imports a, a imports b, and main asks b for an exported name: it loads if main asks before it imports a, and fails if it asks afterwards |
| LoadCases.DiamondError | lang/cmd_build.go:865-972 | in the latter case the error says that the exported name is not defined |
| LoadCases.ExportLostOnSecondHop | lang/cmd_build.go:979-988 | main imports a and a imports b: an exported declaration of b is in the program of a and not in that of main |
| Loader.ImportLoader.Load | lang/cmd_build.go:860-995 | success: the visit is a fitting load tree, its program is the result, and its files are those newly parsed; failure: no tree fits, and the load of the roots gets to a point where this error is what goes wrong (a visit of an open file, an unreadable file, an empty pattern, the first name that the target loaded from there does not export) |
| Loader.ImportLoader.LoadImport | lang/cmd_build.go:944-988 | the result is what `TakeVisible` leaves of the target's program; requested names are all exported by it, and then the target had not been visited before; failure only when the import has no fitting tree, with an error justified as for `Load` |
| Loader.ImportLoader.LoadWildcard | lang/cmd_build.go:916-942 | the result is `TakeAll` of the programs of the matches, in order; an empty pattern or a match without fitting tree is an error |
| Loader.ImportLoader.LoadProject | lang/cmd_build.go:1036-1109 | loading succeeds if and only if the project is loadable; then the parsed files are exactly the reachable ones, each once, the merged program holds of every statement exactly what survives, every requested name is exported by a file loaded through that very import, and no two imports ask the same file; it ends with an error if and only if that error is justified, so the error is determined by the files |
| Braces.CountNetBraces | lang/cmd_fmt.go:114-147 | the one-pass counter with escapes, three quote kinds and comments equals opening minus closing braces after a separate pass that strips quoted text and comments |
| Braces.StripString | lang/cmd_fmt.go:114-147 | a string in any of the three quotes, escapes included, is deleted with its quotes; one that is not closed is deleted to the end |
| Braces.StripCode | lang/cmd_fmt.go:114-147 | a comment is deleted to the end of the line, every other character of code is kept |
| Formatter.FormatText | lang/cmd_fmt.go:17-92 | the one-pass formatter equals parsing into trimmed lines with gaps and printing them again |
| Formatter.FormatLine | lang/cmd_fmt.go:46-85 | one non-blank line: its indent, the blank line before it, and the level after it, which never gets negative |
| Formatter.LevelByCases | lang/cmd_fmt.go:49-85 | the level after a line, by what the line starts with and how many braces it opens or closes |
| Formatter.FormatIndents | lang/cmd_fmt.go:17-92 | every non-blank line of the output is the trimmed source line behind four spaces for each level; where every closing line is a plain one, the level is the brace depth before the line, less one for a closing line |
| Formatter.FormatGaps | lang/cmd_fmt.go:24-67 | a line of the output has a blank line before it if and only if it has one in the source, or it starts with one of the twenty keywords at the outermost level and the line before it does not start with a closing brace |
| Formatter.FormatIsIdempotent | lang/cmd_fmt.go:17-92 | formatting a formatted text changes nothing, for every text |
| Formatter.FormatKeepsLines | lang/cmd_fmt.go:33-92 | the sequence of trimmed non-blank lines is kept exactly |
| Formatter.FormatShape | lang/cmd_fmt.go:36-43 | split at its newlines, the output consists of lines no two adjacent of which are blank, followed by exactly one newline at the end; a text without non-blank lines becomes that newline |
| Formatter.FormatFile | lang/cmd_fmt.go:94-109 | write mode writes the formatted text; check mode accepts when both sides agree up to line ends |
| Formatter.FormatThenCheck | lang/cmd_fmt.go:94-109 | whatever `fmt` writes, `fmt --check` accepts |
| Formatter.CheckAcceptsFixpoints | lang/cmd_fmt.go:94-103 | check mode accepts a text exactly when, with line ends normalized, formatting leaves it alone |
| Formatter.LevelIsDepthIff | lang/cmd_fmt.go:49-85 | the indent level equals the brace depth after every line if and only if every line that starts with a closer closes exactly one brace or stands where nothing is left to close |
| Formatter.ElseLosesALevel | lang/cmd_fmt.go:49-85 | after `if x {` and `} else {` the level is 0 and the depth 1 |
| Policy.Compile | gate/main.go:900-941 | the loop emits the clauses of the rule lines in order |
| Policy.ClauseMeansRule | gate/main.go:918-940 | the emitted condition holds exactly when method, path and header test of the rule hold |
| Policy.FirstMatchDecides | gate/main.go:900-972 | the emitted program prints the action of the first rule line that applies to the request |
| Policy.NoMatchDenies | gate/main.go:969-972 | it prints "deny" when no rule line applies |
| Policy.UndecodableIsDenied | gate/main.go:964-967 | input that cannot be decoded is answered with "deny" under every program |
| Policy.SkippedLine | gate/main.go:904-912 | blank lines, comments and lines of fewer than three words change nothing |
| Policy.RuleRoundTrip | gate/main.go:909-924 | a rule written down with single spaces and a quoted value is read back as the same rule, its header name in lower case |
| Policy.LowerByLetter | gate/main.go:920 | lower case, letter by letter |
| Policy.WrittenRuleDecides | gate/main.go:909-940 | a written rule answers with its action if and only if method and path are its own or left open by "*", and the header has the value, a missing one counting as empty |
| Policy.HeaderTestIff | gate/main.go:918-924 | a rule line ignores headers if and only if its tail is not of the form `if header.NAME == ...` |
| Policy.OtherTailIsDropped | gate/main.go:918-940 | a rule with any other tail decides by method and path alone |
| Policy.MisspeltTestLetsIn | gate/main.go:918-924 | the concrete line with a single `=` answers "allow" under all headers |
| Limiters.Compact | gate/main.go:1023-1029 | compaction in place leaves the instants after the cutoff, in order |
| Limiters.AdminRateLimiter.Limit | gate/main.go:1012-1039 | new table and decision of one call; the compacted slice is stored on rejection too |
| Limiters.IpRateLimiter.RateLimit | core/middleware.go:322-352 | new table and decision of one request with limit 100; a rejected request leaves the table alone |
| Limiters.LimitersAgree | gate/main.go:1023-1038 | with a non-decreasing clock and equal limits both limiters decide every request like a specification that counts over the full admission log |
| Limiters.LetsThroughIff | core/middleware.go:331-347 | either limiter lets a request through if and only if fewer than the limit of its client's requests were let through in the sixty seconds before it |
| Limiters.HundredPass | core/middleware.go:331-347 | of the requests a client makes within sixty seconds, the first hundred pass and no other |
| Limiters.LimiterWindowBound | core/middleware.go:321-347 | in every window of one minute, wherever it ends, either limiter lets at most the limit of requests of a client through |
| Limiters.LimiterIgnoresOthers | core/middleware.go:333-347 | either limiter decides a request as if its client were the only one |
| Telemetry.TelemetryProvider.Append | core/otel.go:204-213 | the critical section that appends a span, and takes the batch out with the hundredth |
| Telemetry.TelemetryProvider.TakeBuffered | core/otel.go:226-233 | a tick leaves the buffer empty, and takes what was in it, if anything |
| Telemetry.TelemetryProvider.BeginClose | core/otel.go:79-86 | only the first caller of shutdown gets through, and it disables recording |
| Telemetry.RunKeepsInvariant | core/otel.go:78-98 | in every interleaving, at every moment, accepted spans equal buffer plus batches in flight plus batches sent as multisets, batches have 1 to 100 spans, the buffer is below 100, and after shutdown holds the late spans modulo 100 |
| Telemetry.TickFlushes | core/otel.go:226-235 | in every run, right after a tick the buffer is empty, all accepted spans are with an exporter or sent, and what was in the buffer is what the loop exports |
| Telemetry.LoopSends | core/otel.go:226-235 | the loop holds its batch until it exports it, and then that batch is sent |
| Telemetry.FullBatchLeaves | core/otel.go:204-213 | a span accepted into a buffer of 99 completes a batch that is handed to an exporter at once, any other stays in the buffer |
| Telemetry.CheckedAgainstShutdown | core/otel.go:180-186 | a span is recorded if and only if shutdown had not begun when its call checked |
| Telemetry.CloseCompletesIffEmpty | core/otel.go:91-97 | in every run, from the moment shutdown comes back for the mutex on, it has returned if and only if the buffer was empty at that moment; then every span accepted until then was handed to an exporter |
| Telemetry.CloseDeadlocks | core/otel.go:92-97 | otherwise nothing is accepted, flushed or sent any more in any continuation |
| Telemetry.CloseCanDeadlock | core/otel.go:92-97 | a concrete run from the start into that state |
| Telemetry.LateSpanStays | core/otel.go:204-213 | a concrete run that ends, after shutdown has completed, with a span in the buffer |
| HotReload.RunKeepsInvariant | lang/cmd_build.go:1259-1402 | in every reachable state target and current process serve and differ only during the swap, superseded processes passed the probe, every started process is in exactly one situation (being probed, awaiting the swap, in use, superseded, discarded), and connections only hold addresses of processes that are or were the target |
| HotReload.TargetAlwaysServes | lang/cmd_build.go:1349-1402 | once the proxy is up its target has passed the listen probe and was neither interrupted nor killed |
| HotReload.RefusableIffInterrupted | lang/cmd_build.go:1151-1161 | in every reachable state a connection can be refused if and only if the process it has read was superseded and its interrupt has gone out |
| HotReload.RefusedOnlyIfReplaced | lang/cmd_build.go:1151-1161 | a dial is refused only when the target was replaced after it had been read |
| HotReload.RefusalHappens | lang/cmd_build.go:1154-1161 | a concrete run in which that happens |
| HotReload.DialsWhatItRead | lang/cmd_build.go:1151-1161 | a connection dials what the target was when it read it |
| HotReload.RetiredIsKilled | lang/cmd_build.go:1384-1399 | a superseded process whose grace period is over has been killed, and every superseded process can get there in at most two steps of its own |
| HotReload.GivenUpAfterTwenty | lang/cmd_build.go:1298-1316 | a new process is given up after twenty probes |
| HotReload.FailedReloadChangesNothing | lang/cmd_build.go:1370-1374 | from launch to kill, with anything interleaved, a failed reload changes neither target nor current process |
| Cron.MatchField | lang/cmd_cron.go:139-190 | whenever it ends, the field test with its comma recursion computes `Matches`, malformed bounds and steps included |
| Cron.Scan | lang/cmd_cron.go:184-189 | whenever it ends, the stepping loop decides membership in the arithmetic progression |
| Cron.EndsExactly | lang/cmd_cron.go:184-189 | the stepping loop reaches the value or leaves the range if and only if it moves forward, is never entered or has the value on its way |
| Cron.ZeroStepNeverEnds | lang/cmd_cron.go:184-189 | testing minute 5 against `*/0` does not end |
| Cron.SteppingHalts | lang/cmd_cron.go:152-161 | with positive steps every test of a field ends |
| Cron.AllStepEnds | lang/cmd_cron.go:111-123 | with positive steps in all fields the whole projection ends |
| Cron.FieldMatches | lang/cmd_cron.go:139-190 | a well-formed comma list of `*`, numbers, ranges and steps, with numbers written in any way that can be read, matches exactly the union of the progressions it denotes |
| Cron.DecimalIsNumeral | lang/cmd_cron.go:152-183 | the canonical notation of every 64-bit number is among these ways to write it, and means that number |
| Cron.PaddedIsSame | lang/cmd_cron.go:152-183 | leading zeros and a plus sign do not change a number |
| Cron.ReadingNumbers | lang/cmd_cron.go:152-183 | a minus sign negates; a number beyond 64 bits, an empty text and digits followed by anything else cannot be read |
| Cron.MalformedParts | lang/cmd_cron.go:152-183 | a range with a bound that cannot be read matches 0 only, a step that cannot be read counts as one, and any other text matches nothing |
| Cron.MatchCron | lang/cmd_cron.go:192-202 | whenever the field tests it gets to end: all five fields must match, with Sunday as 0 or 7 |
| Cron.ScheduleFires | lang/cmd_cron.go:192-202 | a written schedule fires at the moments whose minute, hour, day, month and weekday are denoted by its five lists in this order, a Sunday as 0 or as 7 |
| Cron.NextCron | lang/cmd_cron.go:204-219 | whenever the search ends, the result is the least whole minute strictly after the start and before the horizon that matches, an error exactly when there is none |
| Cron.NextRun | lang/cmd_cron.go:125-137 | the next run of a job by cron expression or by interval, and exactly when each of the errors is returned: a wrong number of fields, no run before the horizon, no schedule, an unreadable interval |
| Cron.ProjectNext5Runs | lang/cmd_cron.go:111-123 | up to five runs, each the next one after the run before it; fewer only when nothing follows within two years |
| Cron.ChainSkipsNothing | lang/cmd_cron.go:111-123 | the projected runs increase strictly, and a minute up to the last of them fires if and only if it is listed |
| Installer.NameDropsVersion | lang/cmd_package.go:306-312 | the version suffix is cut off at the first "@" |
| Installer.PackageInstaller.Install | lang/cmd_package.go:299-431 | every call ends; what it installs is needed by its package, and no package is left with an unhandled dependency except those being installed or excused |
| Installer.PackageInstaller.InstallDependencies | lang/cmd_package.go:468-476 | after the loop every dependency of the package, open or excused or not, is installed or cannot be fetched |
| Installer.PackageInstaller.InstallPackage | lang/cmd_package.go:295-325 | on every finite, possibly cyclic registry installation ends, adds or replaces only packages the root needs, and leaves unmet only what cannot be fetched; an installed package is left alone, except that one of the standard library is replaced by what the registry holds; if what the root transitively asks for can be fetched complete, a closed disk is closed afterwards and holds the root, whatever the rest of the registry looks like |
| Installer.RetryAfterBroken | lang/cmd_package.go:320-325 | installing again after an archive broke off reports success, leaves the disk as it is and meets no dependency that was unmet before, whatever the registry holds by then |
| Installer.ClosedHoldsAll | lang/cmd_package.go:468-476 | a closed disk that holds a package holds everything it transitively depends on by the manifests on that disk |

## Left out

- Service start-up, HTTP handlers, TLS, flags and process spawning: plumbing around the modelled logic.
- Lexer, parser and code generation of the Pranor language: only the statement forms the analyses distinguish are modelled.
- Constant folding of expressions in the optimizer: conditions come in folded form, as a literal or as unknown.
- Optimizer.OptimizePreservesExecutions: the tree is rebuilt as a value, so the in-place update of nodes is not captured.
- Automatic loading of declaration files for Go package imports, which swallows errors: such an import is an unnamed statement here.
- Finding the roots of a project: the manifest entry, the directory listing and the refusal of a directory without source files come before loading, and the roots are a parameter.
- Resolution of import paths and patterns against the file system: an import carries its resolved target, and two spellings of one file are two files.
- Quoting of strings in the emitted policy program and the Go text around it: the emitted conditions are expressions with their Go meaning.
- Lower-casing of header names beyond ASCII.
- Cron.Scan: integers do not wrap around, so a loop that would run through the whole 64-bit range counts as one that never ends.
- Calendar arithmetic and time zones.
- Network failures of an export: a batch counts as sent once its export has passed its own lock.
- Restarting telemetry after shutdown, and span attributes.
- HotReload.RunKeepsInvariant: assumes that instances do not exit unless told to, and that a probed address belongs to the instance that was started on it.
- Tar extraction, git fallback and the manifest parser of the installer: fetching yields a complete archive, a broken one or nothing.
- Lock client and server, role checks, migrations, mesh balancing, benchmarks and dashboards: easy beside the rest or without visible counterpart.
