# Verification model of the journey harness

The journey harness under `e2e/journey` drives an installed platform from the
outside: it runs commands on pseudo terminals, reads what they print, checks
machine results against JSON schemas, compares installation state, decodes
container logs, bounds the evidence it keeps and turns nightly results into
tracker issues. This project models that logic and proves what it promises.

| module | models |
|---|---|
| `Pty` | `run_pty_command`: child and harness interleaved over the two byte queues of a terminal |
| `ProcessTree` | the processes of a child and the device number of its terminal |
| `BackgroundCommand` | process, reader thread and any number of waiting callers, interleaved |
| `CliResult`, `UxEnvelope` | reading one JSON document or one record a line against an exit status |
| `SchemaValidator`, `MachineResult` | the JSON Schema subset validator, and the machine-result contract of the repository checked with it |
| `Jsonc` | the remover of comments and trailing commas |
| `StructuralDiff`, `SnapshotDiff` | the differences between two plans and between two installation snapshots |
| `NightlyReport`, `ReportItems` | the nightly aggregation |
| `IssueSync`, `SyncOutcome` | its reconciliation with the issue tracker |
| `EngineLog` | the decoder of multiplexed container logs |
| `DumpBudget`, `ServiceLogArchive` | the byte budgets of diagnostic dumps and archived service logs |
| `HostLifecycle` | restoring host run states around a fixture |
| `Json`, `SortedKeys`, `Decimals`, `Options` | shared values |

`dafny verify dfyconfig.toml` checks everything.

## How to read it

Loops and objects that change in place are methods and classes, each proved
against a function or a declarative statement; the properties are then lemmas
about that function. Concurrent protocols are state machines: every choice of a
scheduler, a child or a callback is a parameter of an event, and a statement
about all event sequences is a statement about all interleavings. Values that
come from outside (parsed JSON, process status, row contents, redaction, pattern
matching, fingerprints) are parameters; nothing is assumed about redaction and
pattern matching unless a lemma says so.

## What the proofs found

Each of these is a place where the code does less than its comments, tests or
names suggest. The model keeps the code's behaviour; the lemma named gives an
input, and where a condition decides the matter it is proved exactly.

- The readiness invariant stated above the window in `run_pty_command` needs that
  no input was waiting at the first observation: otherwise the child may wake,
  print and block again between the two observations, which look alike
  (`Pty.StaleCallback`). Without answers in the window an empty input queue at the
  first observation is exactly what is needed (`Pty.WindowCurrentExactly`). But
  `on_output` may answer inside the window what the drain has found, with the same
  effect (`Pty.AnswerMakesStale`): over all windows the invariant needs empty queues
  both ways and a child with one task (`Pty.AnsweredWindowExactly`).
- One pass over JSONC is not enough for `,,]` or `, /*c*/ ]`
  (`Jsonc.NotIdempotent`, `Jsonc.IdempotentExactly`).
- `_changed_paths` takes a missing key for a null and `True` for `1`
  (`StructuralDiff.UnchangedExactly`, `StructuralDiff.CoarserThanEquality`).
- A profile that declares a capability whose name has a colon overwrites that
  capability's FAIL with BLOCKED, and drops its duration; so does one that declares
  `a:b` for mode `c` where `a` failed in mode `b:c` (`NightlyReport.ColonLosesFailure`,
  `NightlyReport.FailureKeptExactly`). A step `a:x` also hides that a declared `a` has
  no result (`NightlyReport.OneStepHidesGap`, `NightlyReport.ColonHidesGap`).
- An issue that is closed, carries a fingerprint and is also the status issue is
  reopened although its fingerprint did not fail (`IssueSync.PinnedIsReopened`,
  `IssueSync.OpenExactly`).
- A pinned number that is not yet an issue's can become a failure's: the status is
  then written into that issue and closed with it (`IssueSync.PinnedTaken`).
- Two callers that wait for one background command at the same time can record it
  twice (`BackgroundCommand.OneRecordExactly`, `BackgroundCommand.DuplicatedExactly`).
- Cutting a command's output inside a character leaves one or two bytes that grow
  to the three of a replacement character; the budget then goes negative, and the
  next command without a guard is cut from its end only
  (`DumpBudget.CapBySplitsExactly`, `DumpBudget.CapMissedBy`).
- Redaction comes after the cut and lengthens short values: `key:1` becomes
  `key:"[REDACTED]"`. A dump or a log archive that is nearly full then exceeds its
  cap (`DumpBudget.ShortSecretLengthens`, `DumpBudget.RedactionExceeds`,
  `ServiceLogArchive.LengthenedArchiveExceeds`; exactly when:
  `DumpBudget.CapExactly`, `ServiceLogArchive.ArchiveWithinExactly`).
- The 64 KiB set aside for the index do not hold every index: the failure it quotes
  is cut at 20,000 characters, not bytes (`DumpBudget.IndexExceedsReserve`).
- The copy of an empty file stays in the dump without being listed in its index
  (`DumpBudget.EmptyCopyUnlisted`, `DumpBudget.ListedExactly`).
- The machine-result contract accepts an `ok` of `1`, the envelope decoders do not;
  the decoders accept errors the contract does not (`MachineResult.Disagreements`,
  `MachineResult.DecodedFailureExactly`).
- A CLI stream whose terminal record has a list or an object for its exit code, or
  whose successes carry a stream entry that is not an object, ends in an exception
  other than the `ValueError` callers handle (`CliResult.ListExitCrashes`,
  `CliResult.TextStreamCrashes`, `CliResult.CrashExactly`).

## Model

| member | source | states |
|---|---|---|
| Pty.StepConserves | e2e/journey/invocations.py:948-1013 | no single action of child, harness or callback loses, invents or reorders a byte of output |
| Pty.OutputConserved | e2e/journey/invocations.py:948-1013 | over every run the transcript is a prefix of all output, short of it by exactly what is queued; a run that did not time out returns all of it |
| Pty.OutputShown | e2e/journey/invocations.py:951-970 | over every run on_output has been shown the whole transcript whenever the harness polls, selects, observes, confirms, calls on_read_ready, kills or is done |
| Pty.ChunkIsShown | e2e/journey/invocations.py:955-970 | without on_read_ready the harness alone reads a chunk of what is queued, shows it and polls again |
| Pty.ExitIsReported | e2e/journey/invocations.py:948-1013 | after the child's exit the harness alone ends without a timeout, with all output read and shown, even past the deadline |
| Pty.DeadlineKills | e2e/journey/invocations.py:989-996 | past the deadline a child still alive is killed and the run is timed out |
| Pty.TimeoutNeedsDeadline | e2e/journey/invocations.py:948-996 | only a run in which the deadline was found past is timed out |
| Pty.CallbackOnlyIfConfirmed | e2e/journey/invocations.py:976-986 | on_read_ready is called only after both looks saw the same reader blocked and the input queue was then seen empty |
| Pty.StepKeepsWindow | e2e/journey/invocations.py:976-985 | while no input is queued every action keeps the observed read blocked and, once drained, its output in the transcript |
| Pty.WindowHolds | e2e/journey/invocations.py:976-985 | that invariant over every interleaving since the last observation |
| Pty.ReadReadySafety | e2e/journey/invocations.py:971-988 | when on_read_ready is called, and no input was queued since the first observation, the same read is blocked, no input is queued and the transcript has all output before the read |
| Pty.QuietExactly | e2e/journey/invocations.py:968-988 | the hypothesis holds exactly when no input was queued at the observation and no callback answered since |
| Pty.StaleCallback | e2e/journey/invocations.py:976-988 | a whole run in which both observations agree, the input queue is empty and the transcript still lacks output that preceded the read |
| Pty.WindowGoesStale | e2e/journey/invocations.py:976-988 | from any reachable observation of a blocked reader with input queued, a window without answers ends in a callback whose transcript lacks output before the read |
| Pty.WindowCurrentExactly | e2e/journey/invocations.py:971-988 | from any reachable observation of a blocked reader, every window without answers is current when it calls back if and only if no input was queued at the observation |
| Pty.AnswerGoesStale | e2e/journey/invocations.py:976-988 | from any reachable observation of a blocked reader with no input queued, output queued or a child with several tasks lets on_output answer in the window, and the callback then lacks output before the read |
| Pty.AnswerMakesStale | e2e/journey/invocations.py:976-988 | a whole run in which on_output answers a prompt inside the window and on_read_ready gets a transcript without what the child wrote before its read |
| Pty.AnsweredWindowExactly | e2e/journey/invocations.py:971-988 | with callbacks free to answer, every window from a reachable observation is current when it calls back if and only if no input and no output is queued there and the child has one task |
| Pty.WindowDrained | e2e/journey/invocations.py:159-174 | draining moves everything queued into the transcript, in order, and goes on to the callback |
| Pty.ReadinessReached | e2e/journey/invocations.py:976-988 | from the observation of a blocked reader with no input queued the harness alone reaches on_read_ready, however much output is queued |
| ProcessTree.PtyReaderPids | e2e/journey/invocations.py:60-84 | for any parent map, cyclic or dangling: terminates with exactly the pids whose recorded parent chain reaches the root, ascending; nothing if the root is gone |
| ProcessTree.OnePass | e2e/journey/invocations.py:77-83 | one round adds only descendants, and a round without change leaves a closed set |
| ProcessTree.ClosedUnderClimbing | e2e/journey/invocations.py:76-83 | a set closed under recorded children holds every process that climbs to the root |
| ProcessTree.SortPids | e2e/journey/invocations.py:84 | the found pids, each once, ascending |
| ProcessTree.DecodeEncode | e2e/journey/invocations.py:87-90 | decoding undoes the packing of minor's low 8 bits, major's 12 bits and minor's high 12 bits |
| ProcessTree.EncodeDecode | e2e/journey/invocations.py:87-90 | packing undoes decoding on all 32-bit numbers |
| ProcessTree.InRangeExactly | e2e/journey/invocations.py:87-90 | a decoded pair is a 12-bit major and 20-bit minor exactly when the number has 32 bits; negative numbers never are |
| BackgroundCommand.StepKeepsInv | e2e/journey/invocations.py:1130-1171 | every step of process, reader or caller keeps lines conserved, records complete and one record per caller, and only appends |
| BackgroundCommand.RecordsComplete | e2e/journey/invocations.py:1156-1171 | over every interleaving a record is made after exit and end of output only, holds every line in order, and no caller makes two |
| BackgroundCommand.RecordsTell | e2e/journey/invocations.py:1156-1171 | over every interleaving each record holds exactly what the process printed and the code of its only exit |
| BackgroundCommand.RaceRecordsTwice | e2e/journey/invocations.py:1165-1169 | with two callers or more, an interleaving that makes two records |
| BackgroundCommand.OneRecordExactly | e2e/journey/invocations.py:1165-1171 | at most one record in every interleaving exactly when at most one caller waits |
| BackgroundCommand.DuplicatedExactly | e2e/journey/invocations.py:1165-1168 | more than one record is made or due exactly when a caller passed the check while another stood between check and set |
| BackgroundCommand.WaitCompletes | e2e/journey/invocations.py:1156-1163 | once process and output have ended, reader and caller alone can complete a wait from any reachable state |
| CliResult.ReadDocument | e2e/journey/invocations.py:374-394 | a document that is returned is an envelope whose ok agrees with the exit status |
| CliResult.ReadRecords | e2e/journey/invocations.py:400-417 | records are returned exactly when every line is an envelope |
| CliResult.ReadStream | e2e/journey/invocations.py:397-445 | the loops compute the declarative stream outcome: envelopes, a terminal record, agreement with the exit status, at most one result |
| CliResult.ReadKbCreate | e2e/journey/invocations.py:448-471 | document first, then stream: equal to the specified answer, failures included |
| CliResult.StatusAgreement | e2e/journey/invocations.py:448-471 | whatever is returned, by document or stream, has ok true exactly when the exit status is 0 |
| CliResult.AcceptedExactly | e2e/journey/invocations.py:426-445 | when a stream of envelopes is accepted, as one condition over its records |
| CliResult.StreamExactly | e2e/journey/invocations.py:418-467 | a stream answers exactly with its only result, or only failure, before a terminal record carrying the exit status in {0, 1, 2} |
| CliResult.AnswerExactly | e2e/journey/invocations.py:448-471 | the answer is the agreeing document or the stream's, never both |
| CliResult.StatusPinned | e2e/journey/invocations.py:322-335 | another exit status for the same output is refused, except among failing ones for a single document with an uncatalogued code |
| CliResult.StreamRoundTrip | e2e/journey/invocations.py:397-467 | any progress around one answer and a matching terminal record is read back as that answer |
| CliResult.ClosingExactly | e2e/journey/invocations.py:426-438 | which entries make a record the closing one of an exit status |
| CliResult.ResultExactly | e2e/journey/invocations.py:421-425 | which entries make a record a result, and which make a success unreadable |
| CliResult.DocumentStatusExactly | e2e/journey/invocations.py:322-335 | a failure printed as a document is returned exactly with status 2 for a refused input, 1 for a failed operation, any failing one for an uncatalogued code, none for another class |
| CliResult.StreamStatusExactly | e2e/journey/invocations.py:431-438 | a failure in a stream is returned exactly with status 1 or 2, and for a Go tool with one that belongs to its code |
| CliResult.CrashExactly | e2e/journey/invocations.py:427-459 | an exception other than the promised refusal is raised exactly where the output is not read as one document and is either a stream whose terminal exit code is a list or object, or an otherwise accepted stream with a success whose stream entry is not an object |
| CliResult.ListExitCrashes | e2e/journey/invocations.py:429-436 | a terminal record with a list for its exit code raises |
| CliResult.TextStreamCrashes | e2e/journey/invocations.py:457-459 | a success with a text for its stream entry raises |
| UxEnvelope.OneKindOfEnvelope | e2e/journey/invocations.py:224-240 | no value is both a success and a failure envelope |
| UxEnvelope.EnvelopesExactly | e2e/journey/invocations.py:224-240 | which entries make a value a success or a failure envelope, and what is its payload |
| SchemaValidator.ValidExactly | e2e/journey/mcp_project_steps.py:37-88 | unless a dangling pointer is reached, a value is valid exactly when no constraint anywhere in it is violated |
| SchemaValidator.SchemaErrors | e2e/journey/mcp_project_steps.py:37-88 | raises exactly on a reached dangling pointer; otherwise reports exactly the violations, at their paths, and none exactly when the value is valid; terminates for schemas whose references are acyclic |
| SchemaValidator.RaisesExactly | e2e/journey/mcp_project_steps.py:39-51 | validation fails outright exactly when some value, found by a path through keys, items and alternatives, is checked against a pointer to nowhere |
| SchemaValidator.AlternativeErrors | e2e/journey/mcp_project_steps.py:50-52 | one error unless exactly one alternative accepts, whatever stands beside oneOf |
| SchemaValidator.CountOne | e2e/journey/mcp_project_steps.py:51-52 | a sum of one means exactly one alternative |
| SchemaValidator.ConstraintErrors | e2e/journey/mcp_project_steps.py:63-88 | the violations of a schema without reference and alternatives |
| SchemaValidator.LocalErrors | e2e/journey/mcp_project_steps.py:63-82 | the violations of the value itself |
| SchemaValidator.KeyErrors | e2e/journey/mcp_project_steps.py:77-84 | property schemas for declared keys, additionalProperties for the others only |
| SchemaValidator.ItemErrors | e2e/journey/mcp_project_steps.py:85-87 | the violations inside list items |
| MachineResult.MachineAcyclic | contracts/ux-result/machine-result.schema.json:6-30 | validating against the machine-result contract always terminates |
| MachineResult.ValidRoot | contracts/ux-result/machine-result.schema.json:6-30 | the validator accepts exactly the success and failure envelopes, which exclude each other |
| MachineResult.ErrorExactly | core/platform/src/error-envelope/error-envelope.schema.json:6-66 | the validator accepts as an error exactly what the error schema lists, said of the values: required and allowed keys, texts, choices, the boolean, lists of actions and diagnostics, details, URI |
| MachineResult.TypeAlone | e2e/journey/mcp_project_steps.py:54-62 | which values each of the four type names accepts, and that any other name rejects none |
| MachineResult.KeywordsAlone | e2e/journey/mcp_project_steps.py:63-84 | what const, enum, minLength, pattern, format, required and additionalProperties ask on their own |
| MachineResult.ViolationsAlone | e2e/journey/mcp_project_steps.py:61-64 | which errors type and const report on their own, and that they stand at the value itself |
| MachineResult.KeyViolations | e2e/journey/mcp_project_steps.py:75-82 | the same for required and additionalProperties |
| MachineResult.EnumViolation | e2e/journey/mcp_project_steps.py:65-66 | the same for enum |
| MachineResult.TextViolations | e2e/journey/mcp_project_steps.py:67-73 | the same for minLength, pattern and format |
| MachineResult.ViolationsInside | e2e/journey/mcp_project_steps.py:77-87 | errors of parts stand at the path of the part, and there are no others |
| MachineResult.ReferencesOverride | e2e/journey/mcp_project_steps.py:39-52 | a reference stands for its target whatever is beside it, an unknown one accepts nothing, and oneOf means exactly one |
| MachineResult.SuccessAgreement | e2e/journey/invocations.py:224-230 | the success decoder accepts exactly what the contract accepts with a boolean ok of true |
| MachineResult.FailureAgreement | e2e/journey/invocations.py:233-240 | every failure the contract accepts with a boolean ok decodes to its error |
| MachineResult.DecodedFailureExactly | e2e/journey/invocations.py:233-240 | a failure that decodes meets the contract exactly when its error meets the error schema |
| MachineResult.Disagreements | e2e/journey/mcp_project_steps.py:63-64 | an ok of 1 passes the contract only; an error with just code and message passes the decoder only |
| Jsonc.WithoutJsoncComments | e2e/journey/installer_case_steps.py:918-960 | the character machine removes exactly the comments and the commas before a closing bracket |
| Jsonc.LineCommentGoes | e2e/journey/installer_case_steps.py:939-942 | a line comment goes up to the line break or the end, and no further |
| Jsonc.BlockCommentGoes | e2e/journey/installer_case_steps.py:943-947 | a block comment goes up to its first end mark, or to the end of the text |
| Jsonc.CommaGoesExactly | e2e/journey/installer_case_steps.py:948-956 | a comma goes exactly when white space alone separates it from `]` or `}` |
| Jsonc.LiteralStays | e2e/journey/installer_case_steps.py:926-938 | a string literal stays, whatever is in it |
| Jsonc.UnclosedLiteralStays | e2e/journey/installer_case_steps.py:926-934 | a literal that is not closed stays up to the end of the text |
| Jsonc.OthersStay | e2e/journey/installer_case_steps.py:957-959 | every other character stays |
| Jsonc.AsciiSpaces | e2e/journey/installer_case_steps.py:950 | which characters below 128 are white space |
| Jsonc.SkipLine | e2e/journey/installer_case_steps.py:941-942 | stops at the end of the line comment |
| Jsonc.SkipBlock | e2e/journey/installer_case_steps.py:945-947 | stops behind the block comment, or at the end of an open one |
| Jsonc.LooksTrailing | e2e/journey/installer_case_steps.py:949-952 | looks past white space for a closing bracket |
| Jsonc.Rescan | e2e/journey/installer_case_steps.py:918-960 | reading the output finds exactly the pieces kept: nothing glues into a new comment or literal |
| Jsonc.LiteralsPreserved | e2e/journey/installer_case_steps.py:919-938 | the output has no comment, and the source's string literals outside comments, unchanged and in order |
| Jsonc.SecondPass | e2e/journey/installer_case_steps.py:939-956 | a second pass removes unquoted commas and nothing else |
| Jsonc.UnchangedExactly | e2e/journey/installer_case_steps.py:939-959 | a text is unchanged exactly when it has no comment and no trailing comma |
| Jsonc.KeptDropsCommas | e2e/journey/installer_case_steps.py:948-956 | a pass adds no comma, and over a comment-free text with a trailing comma drops at least one |
| Jsonc.PassesSettle | e2e/journey/installer_case_steps.py:948-956 | one pass more than there are unquoted commas reaches a text without comments and trailing commas |
| Jsonc.NotIdempotent | e2e/journey/installer_case_steps.py:948-956 | one pass leaves a trailing comma of `,,]` |
| Jsonc.IdempotentExactly | e2e/journey/installer_case_steps.py:948-956 | a second pass changes nothing exactly when no kept comma is hidden from a closing bracket by comments or a trailing comma |
| StructuralDiff.UnchangedExactly | e2e/journey/platform_update_steps.py:111-121 | no path is reported exactly when the values are equal once null-valued keys are dropped at every depth |
| StructuralDiff.NoChangeIsEquivalence | e2e/journey/platform_update_steps.py:111-121 | reporting no change is reflexive, symmetric and transitive |
| StructuralDiff.CoarserThanEquality | e2e/journey/platform_update_steps.py:113-114 | two different values between which no change is reported |
| Json.PyEqualExactly | e2e/journey/platform_update_steps.py:121 | the equality of values as Python has it, kind by kind |
| SortedKeys.BeforeExactly | e2e/journey/platform_update_steps.py:113 | the order of keys: by the first character that differs, a beginning before what goes on |
| StructuralDiff.Symmetric | e2e/journey/platform_update_steps.py:111-121 | the same paths are reported in both directions |
| StructuralDiff.ReportedExactly | e2e/journey/platform_update_steps.py:111-121 | a path is reported exactly when following it in both values leads to a difference that goes no deeper |
| StructuralDiff.ReportedOnce | e2e/journey/platform_update_steps.py:111-121 | no path is reported twice |
| StructuralDiff.ReportedInOrder | e2e/journey/platform_update_steps.py:113-119 | differences are reported by sorted keys and by positions, the length last, at every depth |
| SnapshotDiff.PatchReproduces | e2e/journey/installer_case_steps.py:1564-1570 | the old snapshot patched with the reported paths is the new one |
| SnapshotDiff.ReportedExactly | e2e/journey/installer_case_steps.py:1564-1570 | a path is reported once, under one heading, exactly when the snapshots differ there |
| SnapshotDiff.NoChangesExactly | e2e/journey/installer_case_steps.py:1564-1570 | nothing is reported exactly for equal snapshots |
| SnapshotDiff.ChangesReversed | e2e/journey/installer_case_steps.py:1564-1570 | exchanging the snapshots exchanges added and removed |
| SnapshotDiff.VisiblePaths | e2e/journey/installer_case_steps.py:1573-1584 | the message lists the first min(total, 20) paths over all headings, and the remainder is never negative |
| NightlyReport.Aggregate | e2e/journey/nightly_report.py:66-144 | the three loops compute the specified totals and overall status |
| NightlyReport.StepsSummarised | e2e/journey/nightly_report.py:76-90 | for each key the worst status, the whole duration and the first step that did not pass |
| NightlyReport.FailuresAreFailedSteps | e2e/journey/nightly_report.py:84-86 | the failures are failed steps under their fingerprints, and none is missing |
| NightlyReport.FailureLoweredExactly | e2e/journey/nightly_report.py:101-110 | on any totals, the next profile replaces a FAIL exactly when it declares the key's capability and does not recognise it before a first colon |
| NightlyReport.FailureKeptExactly | e2e/journey/nightly_report.py:74-125 | over the whole aggregation a failed key stays FAIL exactly when a journey process failed under it or no gap replaced it; and which gaps do, in both closed forms |
| NightlyReport.ColonLosesFailure | e2e/journey/nightly_report.py:102-110 | an input: in a report of one failed step whose capability is declared, the failure stands exactly when the name has no colon |
| NightlyReport.ColonFreeRecognisable | e2e/journey/nightly_report.py:102-104 | steps whose capabilities have no colon never pass for another declared capability, whatever is declared |
| NightlyReport.AggregatedExactly | e2e/journey/nightly_report.py:74-125 | for any steps, profiles and exits: each key is present exactly when a step, gap or bad exit puts it there; it shows FAIL for a bad exit, BLOCKED for a gap, else the worst of its steps, and the duration of its steps unless a gap replaced them |
| ReportItems.ItemsExactly | e2e/journey/nightly_report.py:78-124 | every item of the report: capability and mode, and as first failure the gap's step where a gap stands, else the first step that did not pass, else the first bad exit's |
| ReportItems.FailuresKept | e2e/journey/nightly_report.py:84-125 | the failures are the failed steps and bad exits, each under its own fingerprint, of several the last |
| ReportItems.EmptyReports | e2e/journey/nightly_report.py:70-100 | without results or steps the runner is shown as failed |
| ReportItems.StepsCount | e2e/journey/nightly_report.py:76-77 | the steps of all results count, result by result |
| ReportItems.CoverageFails | e2e/journey/nightly_report.py:138-140 | incomplete case coverage fails the report |
| Decimals.DecimalReads | e2e/journey/nightly_report.py:117 | numbers are printed as digits that read back as the number |
| NightlyReport.GappedByMode | e2e/journey/nightly_report.py:101-110 | where no mode has a colon, gaps stand exactly under the declared keys whose capability no step of that mode has before its first colon, in any order of profiles |
| NightlyReport.GappedByClaim | e2e/journey/nightly_report.py:101-110 | where no step passes for another's declared capability, whatever the modes, gaps stand exactly under claimed keys and declared keys no step mentions |
| NightlyReport.ShownByMode | e2e/journey/nightly_report.py:74-125 | the whole report key by key for colon-free modes, whatever the capability names |
| NightlyReport.ShownByClaim | e2e/journey/nightly_report.py:74-125 | the whole report key by key where no step passes for another's capability: everything declared is there, with the maximum of PASS, BLOCKED, FAIL over its steps, gap and exit unless it is claimed |
| NightlyReport.ModeInjective | e2e/journey/nightly_report.py:78 | keys with colon-free modes determine capability and mode |
| NightlyReport.ReportedFailures | e2e/journey/nightly_report.py:84-125 | for any input, there are failures exactly when some step is FAIL or some process exit is bad |
| NightlyReport.FailuresExactly | e2e/journey/nightly_report.py:84-125 | failures and FAIL capabilities come together exactly when gaps have not replaced every failure |
| NightlyReport.OverallIsWorst | e2e/journey/nightly_report.py:138-140 | with complete coverage no capability is worse than the overall status, and some capability has it exactly under that condition |
| NightlyReport.OrderIrrelevant | e2e/journey/nightly_report.py:76-125 | where modes have no colon, or no step passes for another's capability, statuses and durations do not depend on the order of results, steps, profiles and exits |
| NightlyReport.OrderMatters | e2e/journey/nightly_report.py:78-110 | with a colon in a mode, two passing steps with one key: their order decides between PASS and BLOCKED |
| NightlyReport.ColonHidesGap | e2e/journey/nightly_report.py:101-110 | over the whole aggregation, for colon-free modes: a declared capability is missing from the report exactly when it has no step and no bad exit and a step of its mode has it before its first colon |
| NightlyReport.OneStepHidesGap | e2e/journey/nightly_report.py:101-104 | the inputs with one step, whatever the modes |
| NightlyReport.DurationConserved | e2e/journey/nightly_report.py:80-144 | for any steps, profiles and exits the capabilities' durations add up to those of the steps no gap replaced, which is all of them when there is no such gap |
| IssueSync.Tracker.ListOpen | e2e/journey/nightly_report.py:171-179 | the pages of 100 add up to every issue, once, in order |
| IssueSync.SyncIssues | e2e/journey/nightly_report.py:188-218 | the requests of one sync turn the tracker into the specified board, and the answer names what was created, updated and closed |
| SyncOutcome.AnswersExactly | e2e/journey/nightly_report.py:201-212 | created and updated share out the failures in the order of the report: updated exactly if an issue listed before carries the marker |
| SyncOutcome.ClosedExactly | e2e/journey/nightly_report.py:213-217 | closed names exactly the fingerprints that did not fail and whose last listed issue was open |
| SyncOutcome.StatusExactly | e2e/journey/nightly_report.py:194-195 | the status issue is the pinned one if listed, else the first with the status title and label |
| SyncOutcome.OldIssueExactly | e2e/journey/nightly_report.py:196-217 | every field of every issue of a tidy tracker after a sync |
| SyncOutcome.NewIssuesExactly | e2e/journey/nightly_report.py:199-212 | every field of the issues a sync adds, in order |
| IssueSync.CollectMarkers | e2e/journey/nightly_report.py:190-192 | each marker leads to the last issue that carries it |
| IssueSync.RecordFailures | e2e/journey/nightly_report.py:202-212 | one update or creation per failure |
| IssueSync.CloseStale | e2e/journey/nightly_report.py:213-217 | closes the issues that were open when listed and whose fingerprint did not fail, in whatever order the markers are walked |
| IssueSync.SyncedByIssue | e2e/journey/nightly_report.py:188-218 | a sync issue by issue: the old ones in place, then the added ones |
| IssueSync.OpenExactly | e2e/journey/nightly_report.py:200-217 | after any sync a marked issue is open exactly when its fingerprint failed, or when it was closed and doubles as the status issue |
| IssueSync.PinnedIsReopened | e2e/journey/nightly_report.py:194-217 | a closed, marked and pinned issue that a report without failures opens |
| IssueSync.SyncKeepsNumbered | e2e/journey/nightly_report.py:181-218 | issue numbers stay distinct and are never reused |
| IssueSync.SyncKeepsTidy | e2e/journey/nightly_report.py:188-218 | one issue per fingerprint and one status issue is inductive |
| IssueSync.SyncMirrors | e2e/journey/nightly_report.py:200-217 | after each sync marked issues are open exactly for the failures, and every failure is shown with its text |
| IssueSync.SyncShowsStatus | e2e/journey/nightly_report.py:193-199 | the status issue exists, is found again and shows the report |
| IssueSync.SyncAgain | e2e/journey/nightly_report.py:188-218 | a second sync of the same report creates nothing, closes nothing and changes nothing |
| IssueSync.NightsConverge | e2e/journey/nightly_report.py:188-218 | over any sequence of reports the tracker stays tidy, mirrors the last report, and every issue keeps its number and labels |
| IssueSync.NightsWithoutPinned | e2e/journey/nightly_report.py:194-218 | the same with a pinned number the tracker has not handed out, as long as the nights do not hand it out |
| IssueSync.PinnedTaken | e2e/journey/nightly_report.py:194-217 | a pinned number that a failure's issue takes: the next night writes the status into that issue and closes it |
| EngineLog.DecodeEngineLogStream | e2e/journey/container_outcomes.py:23-37 | accepts exactly the concatenations of well-formed frames, with the payloads of each stream in order; a rejection says how the first bad frame is bad |
| EngineLog.ReadEncoded | e2e/journey/container_outcomes.py:28-35 | reading a frame undoes encoding it, whatever follows |
| EngineLog.FrameIsPrefix | e2e/journey/container_outcomes.py:30-35 | encoding what was read gives the bytes back |
| EngineLog.WireFormat | e2e/journey/container_outcomes.py:28-34 | where stream, padding, size and payload stand in a frame, the size with its highest byte first |
| EngineLog.BadExactly | e2e/journey/container_outcomes.py:28-32 | which bytes make a frame truncated or invalid |
| EngineLog.EncodeInjective | e2e/journey/container_outcomes.py:27-35 | a stream of bytes has one reading as frames |
| EngineLog.OnlyReading | e2e/journey/container_outcomes.py:28-32 | where a stream goes bad, and how, does not depend on the reading |
| EngineLog.Compositional | e2e/journey/container_outcomes.py:27-35 | after an accepted prefix the rest decides |
| EngineLog.CutExactly | e2e/journey/container_outcomes.py:28-32 | a cut stream is accepted exactly when the cut lies between two frames |
| EngineLog.BytesConserved | e2e/journey/container_outcomes.py:30-35 | payload bytes and eight for each frame make up the input |
| DumpBudget.PlatformDump.Add | e2e/journey/platform_state_dump.py:281-290 | a copy is kept, listed and counted if it fits, removed if it does not, and left unlisted if it is empty |
| DumpBudget.PlatformDump.Offer | e2e/journey/platform_state_dump.py:299-309 | the same for the probes, which have no guard |
| DumpBudget.PlatformDump.AddListing | e2e/journey/platform_state_dump.py:397-403 | a listing is written only if its text fits, and counted as written |
| DumpBudget.PlatformDump.RunCommand | e2e/journey/platform_state_dump.py:232-248 | a command's output is cut to what is left, decoded, redacted and counted |
| DumpBudget.PlatformDump.Dump | e2e/journey/platform_state_dump.py:276-500 | the dump over the items it reaches, item by item; it reports itself failed exactly when another exception ended it or the cap was exceeded |
| DumpBudget.WrittenExactly | e2e/journey/platform_state_dump.py:281-309 | what fits is written and listed at its size, what does not fit or comes too late is not, for each kind of item |
| DumpBudget.ClipExactly | e2e/journey/platform_state_dump.py:244-247 | what a cut keeps: the characters that end within it, and one replacement character for one cut in two |
| DumpBudget.BoundedCut | e2e/journey/platform_state_dump.py:243-245 | where a command's output is cut, for budgets above and below zero |
| DumpBudget.WidthExactly | e2e/journey/platform_state_dump.py:243 | a character takes the fewest bytes that hold it |
| DumpBudget.DumpBalanced | e2e/journey/platform_state_dump.py:281-309 | over every sequence of items the bytes used are those listed and those on disk; entries are files, once each, and a file that is not empty is listed |
| DumpBudget.ListedExactly | e2e/journey/platform_state_dump.py:281-309 | what is kept of an item is listed exactly when it is not empty, or is a listing or a command's output |
| DumpBudget.EmptyCopyUnlisted | e2e/journey/platform_state_dump.py:285-290 | the copy of an empty file stays on disk and is not listed |
| DumpBudget.BoundedExactly | e2e/journey/platform_state_dump.py:243-248 | a cut keeps to its budget exactly when the budget is not negative and the cut leaves no one or two bytes of a character |
| DumpBudget.CapExactly | e2e/journey/platform_state_dump.py:397-482 | whatever is redacted, the cap holds exactly when no listing or command output is larger, as written, than what is left when it is reached |
| DumpBudget.OvershootCause | e2e/journey/platform_state_dump.py:243-248 | an item overshoots only if redaction lengthens its text or the cut splits a character |
| DumpBudget.DumpWithin | e2e/journey/platform_state_dump.py:397-482 | a run in which no text is lengthened and no character split keeps to the cap |
| DumpBudget.SplitExceeds | e2e/journey/platform_state_dump.py:243-248 | by how much a split misses the cap: one or two bytes of the replacement character, and what redaction then adds or saves |
| DumpBudget.CapBySplitsExactly | e2e/journey/platform_state_dump.py:411-482 | in a run in which redaction changes no size the cap holds exactly when no cut splits a character |
| DumpBudget.CapMissedBy | e2e/journey/platform_state_dump.py:411-418 | after a split the cap can be missed by any amount |
| DumpBudget.ShortSecretLengthens | e2e/journey/redaction.py:37-44 | given that a one-character value is replaced, the text is 11 bytes longer |
| DumpBudget.RedactionExceeds | e2e/journey/platform_state_dump.py:243-248 | a text that redaction lengthens misses the cap by what it adds, when what is left just holds it |
| DumpBudget.IndexHoldsExcerpt | e2e/journey/platform_state_dump.py:483-487 | the index is larger than the excerpt of the first failure it holds |
| DumpBudget.ReserveExactly | e2e/journey/platform_state_dump.py:22-23 | dumps within their content budget stay within the maximum, whatever they used, exactly when the index as written fits the 64 KiB set aside |
| DumpBudget.IndexExceedsReserve | e2e/journey/platform_state_dump.py:483-489 | a first failure of 20,000 four-byte characters makes a full dump exceed its maximum, whatever else the index lists |
| ServiceLogArchive.GroupRows | e2e/journey/platform_state_dump.py:189-212 | rows are grouped by category, in order of first appearance |
| ServiceLogArchive.CategoriesExactly | e2e/journey/platform_state_dump.py:209-212 | the categories are, once each, those that have lines |
| ServiceLogArchive.LinesTaken | e2e/journey/platform_state_dump.py:190-212 | a category has all of its rows' lines, in order |
| ServiceLogArchive.CategoriesInOrder | e2e/journey/platform_state_dump.py:212 | categories come in the order of their first row |
| ServiceLogArchive.GroupsByDatabase | e2e/journey/platform_state_dump.py:178-213 | groups come database by database |
| ServiceLogArchive.JoinedAll | e2e/journey/platform_state_dump.py:223-225 | a file holds its lines one after the other |
| ServiceLogArchive.StoreCategory | e2e/journey/platform_state_dump.py:213-226 | one category: lines are kept up to the first that does not fit |
| ServiceLogArchive.ArchiveServiceLogs | e2e/journey/platform_state_dump.py:169-229 | the nested loops, with their early return, compute the specified archive |
| ServiceLogArchive.ArchiveSound | e2e/journey/platform_state_dump.py:213-228 | bytes used are those written, each file keeps the longest leading run that fits, and all files but the last leave budget |
| ServiceLogArchive.ArchiveWithinExactly | e2e/journey/platform_state_dump.py:213-228 | the budget holds exactly when the last file, as written, is no larger than what was left for it, so whenever redaction does not lengthen that file |
| ServiceLogArchive.LengthenedArchiveExceeds | e2e/journey/platform_state_dump.py:219-228 | a category that just fits and is lengthened misses the budget |
| ServiceLogArchive.ArchiveWhole | e2e/journey/platform_state_dump.py:213-228 | nothing is dropped while everything fits and redaction lengthens none of the categories |
| ServiceLogArchive.EveryCategoryTried | e2e/journey/platform_state_dump.py:213-228 | when budget is left in the end, a category is missing only because its first line would not fit it |
| HostLifecycle.Preserve | e2e/journey/installer_case_steps.py:573-596 | every root is attempted; what the launcher serves is restored even after another failed; all failures are reported, last root first; without a report every root is as it was and the body's outcome comes through |
| HostLifecycle.Restore | e2e/journey/installer_case_steps.py:582-589 | the loop in reverse order, root by root |
| HostLifecycle.DistinctInOrder | e2e/journey/installer_case_steps.py:575 | roots are kept in the order of their first mention |
| HostLifecycle.FailuresInReverse | e2e/journey/installer_case_steps.py:583 | failures are listed from the last root back to the first |
| HostLifecycle.FailuresExactly | e2e/journey/installer_case_steps.py:584-589 | a root is reported exactly when it cannot be read, or has to change and the launcher refuses |

## Left out

- Pty.ReadReadySafety: for a child with several tasks the transcript is proved to hold the output before the blocked read only, because other tasks may write at any moment.
- Pty.OutputConserved: signals, hang-up of the slave while the child lives on, writes by other processes after the child's exit, and partial writes of answers are not modelled; a callback's answer is queued whole.
- SchemaValidator.SchemaErrors: which errors are reported and where, not their order, number of repetitions or wording; schemas whose references form a cycle without entering a value are outside its contract (the source recurses without end). A list or object for `type`, which raises TypeError, and subschemas that are not objects are not representable.
- SchemaValidator.TextErrors: pattern search is a parameter.
- NightlyReport.AggregatedExactly: profiles have distinct modes, as keys of a dictionary do. Its gaps are defined along the order of the profiles; the forms without an order (GappedByMode, GappedByClaim) do not cover reports in which a mode has a colon and a step passes for another's capability, where the order can matter (OrderMatters).
- NightlyReport.Aggregate: the delta against earlier reports, coverage tables, rounding of the total and loading of result files; durations are real numbers.
- IssueSync.SyncIssues: rendered texts and the fingerprint hash are given; HTTP failures in the middle of a sync and issues changed by others meanwhile are not modelled; closed fingerprints are a set, because the order of the dictionary is not represented.
- IssueSync.NightsConverge: assumes distinct fingerprints in a report, as the aggregation produces, a pinned number that the tracker has handed out (NightsWithoutPinned and PinnedTaken for the other numbers), and that the pinned issue carries no marker (OpenExactly and PinnedIsReopened otherwise).
- EngineLog.DecodeEngineLogStream: on bytes, before UTF-8 decoding; frames shorter than 2^32 bytes, which is all a length field can say.
- CliResult.ReadKbCreate: JSON text parsing, splitting into lines and the message texts; a duplicate key or NaN in the JSON text does not appear in parsed values.
- CliResult.AnswerExactly: takes as given that two or more lines that are each a JSON text do not form one JSON text together.
- StructuralDiff.ReportedExactly: paths are sequences of segments; the source renders them with dots and brackets, which keys containing those characters make ambiguous.
- DumpBudget.PlatformDump.Add: a write that fails half-way and leaves part of a file behind is not modelled; a copy is absent or complete.
- DumpBudget.PlatformDump.Dump: which exceptions can end a dump early is an input.
- DumpBudget.ShortSecretLengthens: redactors are parameters, one for each text written, not their patterns; the lemma takes what the pattern for secret fields does to one value.
- DumpBudget.DumpBalanced: file names are distinct, as the destination paths of one dump are.
- ServiceLogArchive.ArchiveServiceLogs: reading SQLite, building a row's line and choosing its category are inputs; two databases whose directories have one name would write to one file, which the list of written files does not show.
- BackgroundCommand.RecordsComplete: the class is modelled as a state machine on values because its methods interleave inside their bodies; timed-out waits and wait_for_output change nothing and are not events.
- HostLifecycle.Preserve: hosts are independent of each other, and a launcher that reports success has done what it was asked; the external hosts are a map passed in and out.
- ProcessTree.PtyReaderPids: reading /proc is an input, taken as one snapshot.
- run_fixture_group, listing of outside changes, environment selection and PlatformStateDumpOnce would add only easy members.
- The journey steps themselves, HTTP, Docker, SQLite, sockets, temporary directories, secret redaction and wall-clock timeouts.
