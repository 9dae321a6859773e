# VedMoulya operator scripts: a verified model

VedMoulya's `scripts/` directory holds the programs its operators run around the product: they seed audit
workspaces, load the startup environment, drive crash recovery, watch the watchdog, wait for lines of worker
processes, and count lint errors. This project models the algorithms inside those programs in Dafny and proves
what they promise, for all inputs and all interleavings. `dafny verify dfyconfig.toml` checks everything.

| module | models |
|---|---|
| `Sequences` | lists without repetition, searching, filtering |
| `BreadthFirst` | what a breadth-first closure is, stated as an equation without queue or visited set |
| `WorkspaceSeeding` | package location, dependency closure, copying and reporting (`live-business-mission-acceptance.ts`) |
| `EnvFile` | the `.env.local` reader (`bootstrap-schema.ts`) |
| `ShellExport` | the env loader, its `export` lines, and the shell that evaluates them (`load-env.ts`, `startup.sh`) |
| `RecoveryDriver` | MODE=recover as a transition system (`live-final05-worker.ts`) |
| `CertifyPorts` | the instrumented ports under overlapping calls (`live-final05-worker.ts`) |
| `TickSampler` | the sampler of watchdog ticks (`live-final05-gate-worker.ts`) |
| `WorkerOutput` | polling a growing output buffer for a line (`live-restart-acceptance.ts`) |
| `LintCounters` | two counters of one lint report (`analyze-ts-errors.js`, `get-ts-error-details.js`) |
| `DirectoryWalkers` | the unbounded and the depth-bounded listing (`benchmark-project-report.ts`, `live-mission-acceptance.ts`) |
| `ReadinessScoring` | the scoring artifact (`live-real08-certification.ts`) |

Code that updates state is modelled by methods and classes that do the same updates, proved against a
specification; what the scripts promise is then proved about that specification. The concurrent scripts are
transition systems: an `Event` is one thing that can happen between two suspensions of the single JavaScript
thread, a run is any sequence of events that is possible in turn, and `Deliver`, `Sample`, `OnPoll` are the code
that runs without interruption when an event happens. File systems, mission states, clock readings, answers of
the controller and the order of `Object.keys(process.env)` are inputs about which nothing is assumed.

## Where the code and its documentation differ

The model follows the code; each difference is delimited exactly.

- `load-env.ts` promises that a variable already set in the calling shell wins. The loader only sees exported
  variables: one that is set but not exported is overridden when a file binds it otherwise, and only then
  (`AlreadySetWins`). `startup.sh` has such variables, `MODE` among them (`UnexportedIsOverridden`).
- `seedWorkspace` locates an audited package under packages/, services/ or apps/, but reads its facts back from
  packages/ alone. It succeeds exactly when all audited packages are under packages/ and nothing they lead to is
  malformed (`SeedWorkspace`, `LocatedElsewhere`).
- `loadEnvLocal` tests `process.env[key] === undefined`, which is false for names every object inherits
  (`toString`, `constructor`, ...): such a binding never takes effect (`FirstAssignmentWins`, `InheritedIsNeverSet`). A
  value that is one lone quote becomes empty (`LoneQuoteIsEmpty`).
- `waitFor` resolves with a truncated line when a poll comes between the needle and its newline; it resolves the
  whole line exactly when the whole line had arrived (`ResolvedLine`, `EarlyPollTruncates`).
- In MODE=recover nothing listens to a launched loop until `Promise.allSettled`. A loop that rejects earlier ends
  the process as an unhandled rejection, unless the polling ends within the same turn. `CrashesExactly` gives the
  condition for every run; `RejectionWhileSleeping` and `RejectionInLastTurn` show a run of either kind.
- The sampler skips a tick that does not finish later than the last one it saw, even if it saw it
  (`NotLaterIsMissed`). With any clock a total is complete exactly when every contributing tick was sampled before
  the next and finishes later than all sampled before it (`CompleteExactly`).
- `analyze-ts-errors.js` prints the count of all messages as its total of errors (`CountersAgree`,
  `WarningIsTotalled`).

## Model

| member | source | states |
|---|---|---|
| `WorkspaceSeeding.LocateIsFirst` | scripts/live-business-mission-acceptance.ts:134-140 | the earliest of packages/, services/, apps/ that holds the package is found, and nothing is found only when none holds it |
| `WorkspaceSeeding.LocateExactly` | scripts/live-business-mission-acceptance.ts:134-140 | the bases are packages/, then services/, then apps/, and there is no fourth |
| `WorkspaceSeeding.TryLocateRepoPackage` | scripts/live-business-mission-acceptance.ts:134-140 | the early-return loop finds that location |
| `WorkspaceSeeding.LocatedNameIsUnique` | scripts/live-business-mission-acceptance.ts:136-137 | two names are located in the same directory only if they are the same name |
| `WorkspaceSeeding.SuccessorsExact` | scripts/live-business-mission-acceptance.ts:106-118 | one package leads to another exactly when its dependencies or devDependencies name it under `@vedmoulya/` and it is located there |
| `WorkspaceSeeding.DependencyOrder` | scripts/live-business-mission-acceptance.ts:114 | dependencies come before devDependencies, each in its own order; a name in both counts once, where `dependencies` has it |
| `WorkspaceSeeding.TargetsInOrder` | scripts/live-business-mission-acceptance.ts:114-121 | the targets of a list of dependencies are those of its parts, in the same order |
| `WorkspaceSeeding.LocateRoots` | scripts/live-business-mission-acceptance.ts:98-102 | the queue starts with the audited packages' directories, or the first name that cannot be located is the error |
| `WorkspaceSeeding.EnqueueDependencies` | scripts/live-business-mission-acceptance.ts:114-121 | one manifest adds exactly its located internal dependencies not known before, in order; `seen` stays closure plus queue; either nothing is added or fewer packages are left unseen |
| `WorkspaceSeeding.DependencyClosure` | scripts/live-business-mission-acceptance.ts:95-122 | on every graph, cycles included, the worklist ends with the closure; it fails exactly when an audited package cannot be located or a reachable manifest is malformed, and says which |
| `BreadthFirst.ClosureIsReachable` | scripts/live-business-mission-acceptance.ts:85-89 | the closure's elements are exactly the reachable packages, without repetition exactly when no root is repeated |
| `BreadthFirst.ReachableIsLeast` | scripts/live-business-mission-acceptance.ts:85-89 | any set with the roots and all their dependencies has everything reachable, so no smaller snapshot is coherent |
| `BreadthFirst.ClosureIsUnique` | scripts/live-business-mission-acceptance.ts:103-122 | the equation has one solution: the order of the list is fixed, not only its elements |
| `BreadthFirst.BallIsPrefix` | scripts/live-business-mission-acceptance.ts:103-122 | for every n the packages within n dependency edges of the roots are exactly an initial piece of the list |
| `BreadthFirst.ClosureByDistance` | scripts/live-business-mission-acceptance.ts:103-122 | no entry is further from the audited roots than a later one |
| `WorkspaceSeeding.ClosureIsBounded` | scripts/live-business-mission-acceptance.ts:98-122 | with distinct audited names the closure repeats nothing and so the loop runs at most once per package |
| `WorkspaceSeeding.AuditedClosureIsBounded` | scripts/live-business-mission-acceptance.ts:65-122 | so it is for mission-runtime, mission-controller, planning and agent-execution |
| `WorkspaceSeeding.SnapshotCoherent` | scripts/live-business-mission-acceptance.ts:85-89 | every copied manifest leads to the same directories inside the snapshot as in the repository |
| `WorkspaceSeeding.ClosureInSnapshot` | scripts/live-business-mission-acceptance.ts:85-140 | the repository's list is also the closure of the snapshot, where every audited package is located again |
| `WorkspaceSeeding.SeedingIsFixpoint` | scripts/live-business-mission-acceptance.ts:85-140 | the closure computed inside the snapshot is the same list in the same order, and seeding from the snapshot copies the same files |
| `WorkspaceSeeding.AuthorizedWorkspace.CopyManifests` | scripts/live-business-mission-acceptance.ts:124-128 | the workspace then holds exactly the listed manifests, verbatim |
| `WorkspaceSeeding.AuthorizedWorkspace.Report` | scripts/live-business-mission-acceptance.ts:130-163 | the facts describe the manifests under packages/, in order, or the first missing one is the error |
| `WorkspaceSeeding.AuthorizedWorkspace.SeedWorkspace` | scripts/live-business-mission-acceptance.ts:91-131 | exactly when seeding succeeds; whatever the workspace held before is gone, and it holds exactly the closure's files, verbatim, or nothing when the closure cannot be computed; the facts describe the repository's own manifests under packages/ |
| `WorkspaceSeeding.FactsDescribe` | scripts/live-business-mission-acceptance.ts:148-163 | the facts are the manifest's own name and version or a placeholder, the number of different names in `dependencies` alone, and "missing name" or "missing version" exactly where the field is absent or empty |
| `WorkspaceSeeding.LocatedElsewhere` | scripts/live-business-mission-acceptance.ts:130-140 | an audited package that is under services/ alone is located and readable, yet not where the report looks |
| `EnvFile.ReadLine` | scripts/bootstrap-schema.ts:50-62 | the statements of the loop body compute the line grammar that the rows below pin character by character |
| `EnvFile.ProcessEnv.LoadEnvLocal` | scripts/bootstrap-schema.ts:47-65 | the environment becomes the old one overlaid by the file: existing wins, then the first binding of a name, inherited names never; without a file nothing changes |
| `EnvFile.OnlyAdds` | scripts/bootstrap-schema.ts:54-63 | nothing set is changed; what is added has a trimmed, non-empty name without `=` that does not start a comment |
| `EnvFile.LoadingIsIdempotent` | scripts/bootstrap-schema.ts:41-46 | loading the same file again changes nothing |
| `EnvFile.ParseText` | scripts/bootstrap-schema.ts:51-62 | every blank, comment or assignment line, padded anywhere and with either quoting or none, parses to what was meant |
| `EnvFile.PaddedLine` | scripts/bootstrap-schema.ts:51-56 | any ECMAScript white space a line can hold, given by its code points, is dropped around name, `=` and value: ` PORT = 3000 ` is PORT and 3000 |
| `EnvFile.OnlyWhiteIsDropped` | scripts/bootstrap-schema.ts:51-56 | no character other than ECMAScript white space is dropped at an end of a name or of an unquoted value |
| `EnvFile.NoNameIsSkipped` | scripts/bootstrap-schema.ts:52-54 | a line without `=` binds nothing, and neither does one that begins with it |
| `EnvFile.LoneQuoteIsEmpty` | scripts/bootstrap-schema.ts:57-62 | a value that is one lone quote of either kind becomes empty |
| `EnvFile.DocumentReadsBack` | scripts/bootstrap-schema.ts:50-62 | a file of such lines, each ended by LF or CRLF and the last one perhaps open, reads back as its assignments in order |
| `EnvFile.WrittenMapIsRecovered` | scripts/bootstrap-schema.ts:50-63 | a written map holds afterwards if and only if each of its names already had its value, or was neither set nor inherited; what is added is exactly its other names, and nothing set changes |
| `EnvFile.FirstAssignmentWins` | scripts/bootstrap-schema.ts:63 | of several assignments of a name in a file the first counts, unless the name was set already or is one of the twelve inherited names |
| `EnvFile.InheritedIsNeverSet` | scripts/bootstrap-schema.ts:63 | the file `toString=x` binds the name and leaves the environment empty |
| `EnvFile.UnquotedReadsBack` | scripts/bootstrap-schema.ts:56-62 | without quotes a value reads back if and only if neither white space nor a pair of equal quotes encloses it |
| `ShellExport.LoaderProcess.LoadEnvFilesSafe` | packages/core/src/startup/preflight.ts:200-212 | what is set stays, then the first file that binds a name wins; missing and broken files bind nothing |
| `ShellExport.LocalFiles` | scripts/load-env.ts:51-55 | in development and in test `.env.local` decides, then `apps/web/.env.local`; in production and staging no file does |
| `ShellExport.LoaderProcess.Run` | scripts/load-env.ts:62-85 | stdout is exactly one export line per new variable with an identifier name, whatever order the keys come in; in development and in test the new variables are exactly those either local file binds, elsewhere stdout is empty |
| `ShellExport.LoaderProcess.Emit` | scripts/load-env.ts:74-84 | the emit loop prints each key that was not there before, once, and no other |
| `ShellExport.QuotePlain` | scripts/load-env.ts:57-60 | a value without single quotes is enclosed in them as it is |
| `ShellExport.QuoteAroundQuote` | scripts/load-env.ts:57-60 | a single quote in the value stands escaped between the quoted texts around it |
| `ShellExport.IdentifierExactly` | scripts/load-env.ts:77 | an identifier is letters, digits and underscores by code point, not beginning with a digit |
| `ShellExport.ScriptInOrder` | scripts/load-env.ts:75-84 | one line per identifier and nothing for any other name, in the order of the keys |
| `ShellExport.LexUndoesQuote` | scripts/load-env.ts:57-60 | under sections 2.2.1 and 2.2.2 of the POSIX.1-2017 Shell Command Language the quoted text is one word whose value is the original string |
| `ShellExport.SingleQuotes` | scripts/startup.sh:77 | section 2.2.2: everything between two single quotes stands for itself |
| `ShellExport.Backslash` | scripts/startup.sh:77 | section 2.2.1: a backslash makes the next character stand for itself, and disappears with a newline |
| `ShellExport.QuoteIsInjective` | scripts/load-env.ts:57-60 | different strings are quoted differently |
| `ShellExport.EvalLine` | scripts/load-env.ts:83 | evaluating one printed line sets and exports exactly that variable |
| `ShellExport.SubstitutedExactly` | scripts/startup.sh:70 | command substitution drops the newlines at the end, all of them and only those |
| `ShellExport.EvalSubstituted` | scripts/startup.sh:70-77 | evaluating the captured output, its trailing newlines stripped, is the same as exporting every printed variable |
| `ShellExport.StartupLoads` | scripts/load-env.ts:51-84 | any run of the loader, in any print order, leaves the shell as the precedence rule says, variable by variable |
| `ShellExport.EnvironmentAfterStartup` | scripts/load-env.ts:7-16 | a process launched afterwards is given the shell's environment unchanged plus the first binding of each new identifier, and nothing else |
| `ShellExport.LoadEnvironment` | scripts/startup.sh:62-77 | loader and shell composed: every exported variable keeps its value; in development and in test each new identifier gets the value of `.env.local`, else that of `apps/web/.env.local`, exported, else it stays unset; in production and staging the shell is unchanged |
| `ShellExport.AlreadySetWins` | scripts/load-env.ts:15-16 | every variable of the shell keeps its value if and only if no unexported one is bound otherwise by a file |
| `ShellExport.UnexportedIsOverridden` | scripts/load-env.ts:15-16 | a shell and a file for which the stated precedence fails |
| `ShellExport.NothingLoadedInProduction` | scripts/load-env.ts:51-55 | in production and staging nothing is printed and the shell is unchanged |
| `RecoveryDriver.Driver.Launch` | scripts/live-final05-worker.ts:344-348 | an id with a loop gets no second one |
| `RecoveryDriver.Driver.FinishPass` | scripts/live-final05-worker.ts:365-376 | one reconciliation pass launches the reported ids without a loop, in order, and adds the abandoned resumes |
| `RecoveryDriver.Driver.Deliver` | scripts/live-final05-worker.ts:351-383 | the code between two awaits makes exactly the step of the transition system, whose runs the rows below pin by their events |
| `RecoveryDriver.NextAnswerExactly` | scripts/live-final05-worker.ts:354-383 | after any run an answer can come next if and only if no event was fatal and it is what the source awaits after the last answer: read, reconcile abandoned, reconcile provider holds, sleep and read again, or settle the loops and flush; the driver wakes only in a later turn, and the loops are settled only when each is |
| `RecoveryDriver.LoopEndsExactly` | scripts/live-final05-worker.ts:344-379 | a loop can settle if and only if it was launched, has not settled, and the process has neither crashed nor finished |
| `RecoveryDriver.LaunchedSoFar` | scripts/live-final05-worker.ts:344-376 | outside a pass under way every id reported so far has its loop, in order of first report |
| `RecoveryDriver.ReadBeforeEveryPass` | scripts/live-final05-worker.ts:354-378 | between two completed passes the mission was read again, active and before the deadline |
| `RecoveryDriver.SleeperFinishes` | scripts/live-final05-worker.ts:354-383 | a sleeping driver that wakes and reads that the mission is over or time is up drains, and with every loop settled it reaches RECOVER_DONE |
| `RecoveryDriver.DoneInOrder` | scripts/live-final05-worker.ts:354-385 | every run that prints RECOVER_DONE has a flush after all loops have settled, after a reading that ended the polling |
| `RecoveryDriver.RecoverDone` | scripts/live-final05-worker.ts:344-385 | in every run that prints RECOVER_DONE each id reported at boot or by a pass was launched exactly once, in order of first report, and no other |
| `RecoveryDriver.RecoverDoneTotals` | scripts/live-final05-worker.ts:352-385 | by RECOVER_DONE the mission was over or the deadline had passed, every launched loop has settled, and the printed pass count and total are those of all passes |
| `RecoveryDriver.LaunchedOnce` | scripts/live-final05-worker.ts:344-376 | at every point of every run nothing was launched twice or without having been reported |
| `RecoveryDriver.CrashesExactly` | scripts/live-final05-worker.ts:344-383 | in every run the process is lost if and only if an awaited call rejected, the mission disappeared, or a turn ended after a loop had rejected and before any reading that ends the polling |
| `RecoveryDriver.NeverWakes` | scripts/live-final05-worker.ts:345-379 | after a loop has rejected while the driver sleeps, every continuation stays asleep until the turn ends and the process with it |
| `RecoveryDriver.RejectionWhileSleeping` | scripts/live-final05-worker.ts:345-379 | a run in which the one launched loop rejects after a quiet pass, and the crash that follows |
| `RecoveryDriver.RejectionInLastTurn` | scripts/live-final05-worker.ts:355-379 | a run in which a rejection is survived because the polling ends in the same turn |
| `TickSampler.TickWatcher.Sample` | scripts/live-final05-gate-worker.ts:129-144 | the timer callback adds the tick's own considered and resumed counts exactly when it finishes later than the last one seen, and all four counters stay the sums over the ticks accounted for, each once |
| `TickSampler.SumsOfFields` | scripts/live-final05-gate-worker.ts:133-138 | the four sums in the fields of the ticks: passes, considered, resumed, and the passes that resumed something |
| `TickSampler.TotalAtMostSum` | scripts/live-final05-gate-worker.ts:122-138 | a sum over some of the ticks is at most the driver's, and equal exactly when the ticks left out add nothing |
| `TickSampler.NeverOvercounts` | scripts/live-final05-gate-worker.ts:122-138 | in every interleaving and with any clock only observed ticks are counted and no total exceeds the driver's |
| `TickSampler.CompleteExactly` | scripts/live-final05-gate-worker.ts:122-138 | in every interleaving and with any clock a total equals the driver's if and only if every contributing tick was sampled before the next and finishes after zero and after all ticks sampled before it |
| `TickSampler.CompleteIffObserved` | scripts/live-final05-gate-worker.ts:122-138 | with strictly later finish times that is: if and only if every contributing tick was sampled before the next |
| `TickSampler.NotLaterIsMissed` | scripts/live-final05-gate-worker.ts:131 | after any run, a tick that does not finish later than the last one seen is sampled and still missed |
| `WorkerOutput.HoldWorker.OnPoll` | scripts/live-restart-acceptance.ts:123-139 | one poll makes exactly the step of the transition system: a line when the needle occurs, else a failure when WORKER_ABORT or WORKER_CRASH does, else a timeout when the deadline has passed |
| `WorkerOutput.PollDecides` | scripts/live-restart-acceptance.ts:123-138 | in every run a poll while the promise is pending yields the needle's line, a failure or a timeout, each if and only if its condition holds of all output so far |
| `WorkerOutput.OnlyPollsDecide` | scripts/live-restart-acceptance.ts:111-138 | output alone decides nothing, and what is decided stays |
| `WorkerOutput.NeedleLineExactly` | scripts/live-restart-acceptance.ts:124-127 | the line starts at the first occurrence of the needle and ends before the next newline or at the end of the output |
| `WorkerOutput.LineInPrefix` | scripts/live-restart-acceptance.ts:124-127 | the needle's line in part of the output is a prefix of its line, and the whole exactly when the whole is there |
| `WorkerOutput.Settling` | scripts/live-restart-acceptance.ts:123-138 | a resolved promise was settled by a poll, with the needle's line in the output received by then |
| `WorkerOutput.SettlesOnce` | scripts/live-restart-acceptance.ts:123-138 | only one poll settles the promise |
| `WorkerOutput.ResolvedLine` | scripts/live-restart-acceptance.ts:111-141 | for all chunks and poll times the resolved text starts at the needle's first occurrence in the complete output, is a prefix of that line without newline, and is the line if and only if it had arrived to its end by the poll that settled the promise |
| `WorkerOutput.ResolvedHasNeedle` | scripts/live-restart-acceptance.ts:124-127 | the resolved text begins with the needle if and only if the needle has no newline |
| `WorkerOutput.EarlyPollTruncates` | scripts/live-restart-acceptance.ts:124-127 | a poll between the needle and the rest of its line resolves the truncated line |
| `WorkerOutput.FoundOnceThere` | scripts/live-restart-acceptance.ts:123-138 | after the needle has arrived a poll settles the promise, with a failure only if a failure marker was written or the deadline had passed |
| `CertifyPorts.Certifier.Deliver` | scripts/live-final05-worker.ts:120-194 | each uninterrupted part of a port function makes exactly its step |
| `CertifyPorts.EveryTimeline` | scripts/live-final05-worker.ts:119-194 | in every interleaving each timeline prefix has at least as many T3 as T4 and T6 as T7, the T8 marks are numbered 1, 2, 3, ..., and the usage is the sum over completed executions |
| `CertifyPorts.TimelineExactly` | scripts/live-final05-worker.ts:120-194 | in every interleaving the timeline has one mark per begun or completed planning, begun or completed execution and completed verification, in the order they happened, and no other mark |
| `CertifyPorts.UsageExactly` | scripts/live-final05-worker.ts:165-170 | in every interleaving each field of the usage is the sum of that field over the completed executions |
| `LintCounters.BaseName` | scripts/analyze-ts-errors.js:11-12 | the part of the path behind the last slash or backslash |
| `LintCounters.AnalyzeTsErrors` | scripts/analyze-ts-errors.js:9-22 | both tables are the tallies of the errors of the `.ts` files, and the total counts their messages |
| `LintCounters.HitsExact` | scripts/analyze-ts-errors.js:10-19 | what is counted is exactly the severity-2 messages of `.ts` files, under basename and rule |
| `LintCounters.IsTsExactly` | scripts/analyze-ts-errors.js:10 | a report is looked at exactly when its path ends in `.ts` |
| `LintCounters.RuleOfExactly` | scripts/analyze-ts-errors.js:18 | an absent or empty rule id counts as `(parsing)`, any other as itself |
| `LintCounters.CountsArePositions` | scripts/analyze-ts-errors.js:9-20 | what is counted under a file or a rule is the number of places in the report where such an error stands |
| `LintCounters.TallyCounts` | scripts/analyze-ts-errors.js:17-19 | by any key, the tally has each error under its key and nowhere else |
| `LintCounters.CountersAgree` | scripts/analyze-ts-errors.js:9-24 | by file and by rule the sums are equal and at most the printed total, which they equal exactly when there is no warning |
| `LintCounters.TsErrorDetails` | scripts/get-ts-error-details.js:8-31 | the map holds the last details per basename and the total is the number of details held |
| `LintCounters.DetailsInOrder` | scripts/get-ts-error-details.js:12-20 | one detail per error, in order, with its line, column and rule and the first 80 characters of its text |
| `LintCounters.WarningIsTotalled` | scripts/analyze-ts-errors.js:15-24 | a report with one warning has no error and a printed total of 1 |
| `LintCounters.LatestIsLast` | scripts/get-ts-error-details.js:13-20 | under each basename the map has the details of the last file with errors of that name, and no other names |
| `LintCounters.ScriptsAgree` | scripts/get-ts-error-details.js:8-31 | the detail total is at most the errors the analysis counts, and equal if and only if no two `.ts` files that have a severity-2 message share a basename |
| `DirectoryWalkers.WalkFiles` | scripts/benchmark-project-report.ts:169-184 | the recursive listing, a missing or non-directory root being empty |
| `DirectoryWalkers.Listing.Walk` | scripts/live-mission-acceptance.ts:73-82 | the shared list grows by exactly the files up to the depth bound |
| `DirectoryWalkers.WorkspaceFiles` | scripts/live-mission-acceptance.ts:73-85 | a missing root is empty, a root that is a file throws |
| `DirectoryWalkers.ListingsAgree` | scripts/live-mission-acceptance.ts:73-85 | on every tree the bounded listing is the unbounded one restricted to files at most five names below the root, in the same order |
| `DirectoryWalkers.AllFilesExact` | scripts/benchmark-project-report.ts:177-182 | a path is listed if and only if it names a file of the tree |
| `DirectoryWalkers.AllFilesOnce` | scripts/benchmark-project-report.ts:177-182 | no file is listed twice |
| `DirectoryWalkers.AllFilesInOrder` | scripts/benchmark-project-report.ts:177-182 | the listing follows the order of the entries, depth first |
| `DirectoryWalkers.AllFilesOfOne` | scripts/benchmark-project-report.ts:177-182 | a file is listed under its name, a directory by what is below it, the dot entries not at all |
| `DirectoryWalkers.BoundedFilesExact` | scripts/live-mission-acceptance.ts:73-85 | the bounded listing names exactly the files at most five names below the root, each once |
| `ReadinessScoring.PassedExactly` | scripts/live-real08-certification.ts:49-52 | what counts as passed is the multiplicity of true in the list |
| `ReadinessScoring.ScoreExactly` | scripts/live-real08-certification.ts:49-52 | the score times the number of checks is the number of passed ones; no checks score 0 |
| `ReadinessScoring.JoinedScore` | scripts/live-real08-certification.ts:49-52 | the score of two non-empty check lists joined lies between their scores |
| `ReadinessScoring.OneMoreCheck` | scripts/live-real08-certification.ts:49-58 | a passing check never lowers the verdict and a failing one never raises it |
| `ReadinessScoring.ReadyExactly` | scripts/live-real08-certification.ts:47-58 | READY exactly when the list is non-empty and 50 times the passed checks is at least 41 times its length; BLOCKED exactly when none passed |

## Left out

- The mission controller, lease store, loop engine, brain, scheduler, providers and stores: only their answers to these scripts occur, as inputs or events.
- PostgreSQL, HTTP, process spawning and killing, timers and the clock: nondeterministic events and readings.
- Path normalisation: a directory has one spelling, so a dependency name with `.`, `..` or a doubled slash in it is not resolved.
- A manifest's key lists are taken in their written order; JavaScript would put integer-like keys first, and those are never internal packages.
- A manifest whose JSON is valid but not of the declared shape (a `dependencies` that is no object).
- Node's own parser of env files: a file is the variables it binds, or broken; variables that `npx` adds to the loader's environment count as set.
- Shell features beyond quoting, word splitting and `export`: a script that uses any other is refused by the lexer, and readonly variables are not modelled.
- `resolveMode`, the other copies of `loadEnvLocal`, exit codes, log lines and the sorted top-20 report are not modelled.
- Which awaits of the recovery driver complete within one turn (the store answers reads from memory) is left open: any answer may arrive before or after `TurnEnds`, only a timer needs a later turn. An unhandled rejection ends the process, as is Node's default.
- Decoding: chunks are text, so a multi-byte character split between two chunks is not modelled.
- `analyze-ts-errors.js` on a rule named like an inherited object member (`constructor`), whose count starts from a function.
- Text details of timeline marks, time stamps and the `signal` wrappers of MODE=crash.
- Symbolic links and directories that cannot be read below the root.
- Floating point: `costUsd` and the score are exact reals.
