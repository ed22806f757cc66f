# Verified models of the hook and devkit cores

This project models, in Dafny, the parts of the repository whose correctness depends on more than one
branch: scanners and parsers, a release protocol, mutable path state, a recursive command walker,
counters that stand for a history, and the text algorithms of the devkit. Code that works by changing
things step by step is a method or a class here, proved against a function of its inputs or of the old
state; what the code promises is then proved about that function, for all inputs or over all runs.
`dafny verify dfyconfig.toml` checks everything.

| files | what they model |
|---|---|
| `Json`, `JsonScan`, `JsonUnique`, `Scanner`, `Sampling`, `Envelope` | the brace scanner, RFC 8259 texts, the dispatch envelopes in a document and the parser of the first one |
| `StopGate`, `StopRuns` | the second-stop release protocol: oracle block, sealed store, ledger, and runs in which the environment interferes |
| `PathHygiene` | `sys.path` under nested scoped blocks and permanent entries |
| `CommandWalker`, `WrapperStacks`, `CommandLines` | the walk through command wrappers and `sh -c` strings, over lines of several segments |
| `DispatchGate`, `Breaker`, `RepeatLadder` | persistent counters and logs as functions of history |
| `MarkerSections`, `AgentsLint`, `DocIndex`, `IndexScalars`, `Recall`, `EscapeRate`, `EscapeSections`, `EscapeRow`, `Drift` | marker lint, index parsers, section anchors and budget, section upsert and what it does to the other sections, the bounded drift counter |
| `Text`, `Search` | the string operations of Python the others share, and where patterns are found |

## How the outside world appears

- Files are values: a ledger is a sequence of rows, a store a map, a text its lines or its characters. A read
  or write that can fail is a boolean argument of the step, so every failure is quantified over.
- sha256, the workspace fingerprint and HMAC are arbitrary functions required to be injective (`StopGate.Ideal`);
  forging is excluded by `StopRuns.Unforged`, which says that a record written by somebody else carries a MAC
  of the gate's own making, one under a key they planted or read before, or none that verifies.
- In the runs of the release protocol the environment rewrites oracle, ledger and store, and plants or reads the key, at
  any time. Provenance asks that the key in use at the release is not one somebody else planted or read (`StopRuns.Secret`);
  that is also necessary (`StopRuns.ForgeableExactly`). The theorems about anchors, and only these, ask that nobody else
  writes anchor rows or cuts the ledger (`StopRuns.LeavesAnchors`).
- `json.loads` is the inverse of printing the grammar of RFC 8259 (sections 2, 4, 5, 6 and 7); it is well defined because
  the grammar is proved unambiguous.
- Gates of the dispatch pipeline that rest on other modules are arbitrary outcomes in a fixed order.

## What was found to differ from the comments

- `hooks/completion_gate.py:401-424` and `:695-708`: two things raise inside the second stop, and `main` turns the
  exception into exit code 0: a payload whose workspace cannot be resolved (a `cwd` that is not a string, or one that may
  not be searched), and an `adjudication` value that is neither empty nor a mapping. Provenance therefore holds of the
  gate's verdict in every run under a secret key, and of the process's exit code on exactly the stops without these two
  (`StopRuns.SecondStopEndsExactly`, `StopRuns.ExitCodeProvenance`; both inputs in `StopRuns.ExitCodeProvenanceFails`).
- `hooks/completion_gate.py:290-339`: the seal is as good as the secrecy of its key file. Whoever plants a key and a record
  under it is released although nothing was ever sealed (`StopRuns.OwnKeyReleases`).
- `hooks/completion_gate.py:417-451`: the anchor is written before the seal is looked at, so the first armed second
  stop of a workspace decides which block can ever be released, sealed or not (`StopRuns.FirstArmedStopDecides`).
- `hooks/completion_gate.py:480-526`: a first stop whose oracle holds bytes that are no UTF-8 raises too and ends the session,
  like one whose oracle cannot be read; a missing oracle or one that is no YAML does not (`StopRuns.FirstStopEndsExactly`).
- `devkit/governance_binding.py:120-129`: the search resumes inside the envelope it has just sampled, so an envelope that
  holds the start pattern a second time is sampled twice (`Envelope.DocumentSamplesExact` is an if-and-only-if;
  `Envelope.NestedSampledTwice` gives such an envelope for every envelope).
- `devkit/agents_lint.py:82-98`: an opener without a closer is said to leave its line untouched, but it takes the closer of a
  comment behind it (`AgentsLint.OpenerTakesCloser`). `AgentsLint.TextsAreKeptExactly` says when a line of texts and comments
  strips to exactly its texts.
- `hooks/_path_hygiene.py:114-126`: a ledger hit returns at once, so an entry ensured inside a block of the same target
  is gone after the block, and later calls leave it off until one asks for the front (`PathHygiene.SelfEnsuringBlock`).
- `hooks/dispatch_gate.py:1933-1980` with `:419-450`: a rejected first dispatch is of the demoted class and exits with code 0;
  the attempt's journal is confirmed and no history row is written, however often it is repeated (`DispatchGate.DemotedRejection`).
- `hooks/bash_fact_guard.py:161-162` and `:188-192`: a file with warnings only is a target, not clean, so it neither advances
  nor resets its ladder; a write without errors resets it exactly when it has no warnings either (`RepeatLadder.ResetExactly`).
- `devkit/doc_sync.py:305-312`: a named list is returned only when it is the last block of the file (`DocIndex.NoneExactly`).
- `hooks/lib_kunglao.py:1022-1046`: a window of 0 reads the whole ledger, as the slice from `-0` does (`Drift.Tail`).
- `devkit/escape_rate.py:77-86`: a header is searched for anywhere, not at line starts, so a header quoted inside another
  section is the one that is replaced (`EscapeRow.QuotingIsReplaced` for every such document, `EscapeRow.QuotedHeaderIsReplaced`
  for one in full). `EscapeRow.AppendRowExact` is the exact condition under which a write leaves another release's section as
  it was, for headers that cannot overlap; for names without blanks `EscapeRow.TagsApartExactly` says which those are. Names
  with blanks can share a header (`EscapeRow.BlankNameIsTaken`).
- `devkit/doc_sync.py:272-282`: a value that starts and ends with a quote and is no JSON string keeps its quotes
  (`IndexScalars.LooksAreNotEnough`; `IndexScalars.EveryTextReads` is the exact condition for a text to read as itself).
- `devkit/escape_rate.py:77-86`: appending strips the newlines that end the document, so the last section keeps its text only
  when two of them ended it (`EscapeSections.AppendExact`); the first replacement of an appended row adds one newline, and
  from then on the upsert is a fixed point (`EscapeRate.UpsertFixedPoint`).

## Model

| member | source | states |
|---|---|---|
| Scanner.BalancedJsonAt | hooks/lib_kunglao.py:146-173 | the four-variable loop returns what reading the text from a fresh state returns, for every start index, also past the end |
| Scanner.BalancedEndExact | hooks/lib_kunglao.py:146-173 | from a brace, the scanner returns e exactly when the text up to e is a sequence of lexemes whose brace balance, outside string literals, is zero at e and at least one after every proper prefix; -1 exactly when there is none |
| Scanner.ScanIgnoresTail | hooks/lib_kunglao.py:146-173 | text after the returned index never changes it |
| Scanner.ScanFound | hooks/lib_kunglao.py:146-173 | soundness: what the scanner accepts can be cut into lexemes that first bring the depth to zero at the very end |
| Scanner.ScanClosedPrefix | hooks/lib_kunglao.py:146-173 | completeness: every closed lexeme sequence at the start of the text is found, at its own length |
| JsonScan.SkipValue | hooks/lib_kunglao.py:146-173 | any JSON value read at depth one or more, in any of its texts, leaves the scanner in the state it started in |
| JsonScan.ObjectEndExact | hooks/lib_kunglao.py:146-173 | for every object, every RFC 8259 text of it, every prefix and suffix, the scanner stops exactly at the object's end |
| JsonUnique.Unambiguous | hooks/lib_kunglao.py:176-189 | two well-formed JSON trees with the same text are the same tree, so reading the text back is well defined |
| Envelope.LoadsInvertsPrint | hooks/lib_kunglao.py:176-189 | reading any printed tree gives its meaning: escapes decoded, surrogate pairs joined, the last of equal keys kept |
| Envelope.Surrogates | hooks/lib_kunglao.py:176-189 | two escaped surrogates are read as the one code point they stand for, a lone one as itself |
| Envelope.NumberExact | hooks/lib_kunglao.py:176-189 | digits are read as the integer they stand for, with its sign; a fraction or an exponent makes a float |
| Envelope.LaterMemberWins | hooks/lib_kunglao.py:176-189 | of two members with one key the later counts, members with two keys both |
| Envelope.MatchRead | hooks/lib_kunglao.py:67-69 | the start pattern matches a brace, the quoted name and a colon with any white space between the three, and its match ends at the colon |
| Envelope.OneBracePerMatch | hooks/lib_kunglao.py:67 | a match of the start pattern holds one opening brace, so matches never overlap |
| Envelope.NoMatchAcross | hooks/lib_kunglao.py:67 | a brace and what follows it can neither make nor break a match that starts before it |
| Sampling.MatchSampled | devkit/governance_binding.py:120-129 | for any pattern, resuming at the end of a match loses no sample when no match starts inside it |
| Envelope.EnvelopeSamples | devkit/governance_binding.py:120-129 | the search that resumes after each match yields one sample per position where the pattern matches, in order |
| Envelope.EnvelopeSampled | devkit/governance_binding.py:120-129 | the pattern matches at every printed envelope, whatever its white space and later members, and the sample is all of it |
| Envelope.SamplesOfDocument | devkit/governance_binding.py:120-129 | prose without the start pattern interleaved with envelopes gives one sample per start inside an envelope, and exactly the envelopes' texts in order when each has one start |
| Envelope.DocumentSamplesExact | devkit/governance_binding.py:120-129 | the samples are exactly the printed envelopes, in order, if and only if no envelope holds the start pattern a second time |
| Envelope.NestedSampledTwice | devkit/governance_binding.py:120-129 | every envelope wrapped in another is such an envelope: the wrapping is sampled at least twice, so its document's samples are not its envelopes |
| Envelope.ReadPayloadOf | hooks/lib_kunglao.py:224-247 | the fields of a payload come back exactly when version, claim id and tier are in range: the names its tools show, in order, and the other members as metadata; otherwise nothing |
| Envelope.DispatchRoundTrip | hooks/lib_kunglao.py:176-247 | after any prose without the start pattern, the first printed envelope is read back to its tier, the names of its tools, its claim and metadata, whatever follows it |
| Envelope.ToolNamesExact | hooks/lib_kunglao.py:241-244 | the names read from a tool list are the given ones exactly when the items show these names between blanks, each in its place, with only blank items between them |
| Envelope.PrintedNamesListed | hooks/lib_kunglao.py:241-244 | a list of any non-empty names without outer blanks, written as strings, shows exactly these names in order |
| Envelope.BlankAnywhere | hooks/lib_kunglao.py:241-244 | an item of blank text changes nothing wherever it stands in the list |
| Envelope.NoToolList | hooks/lib_kunglao.py:241-243 | tools that are missing or no list read as no tools, and the rest of the payload as ever |
| Envelope.MissingOrBad | hooks/lib_kunglao.py:233-240 | version, claim and tier must be there and the claim be text; an exception is raised exactly for a version that is no integer, or a tier that is none under a version in range |
| Envelope.ClaimIds | hooks/lib_kunglao.py:237 | a claim id is `C-` and at least one digit, and nothing else |
| Envelope.FirstStartDecides | hooks/lib_kunglao.py:176-189 | only the first match of the start pattern counts, and of it only the sample: without one, or one that is no JSON, there is no dispatch whatever follows |
| Drift.TailSignatures | hooks/lib_kunglao.py:1022-1046 | the loop collects the signatures of the readable rows of the bounded tail, in order |
| Drift.TailIsLast | hooks/lib_kunglao.py:1022-1046 | the window holds the last rows, as many as asked for; all of them when there are no more or none is asked for |
| Drift.SignatureRotation | hooks/lib_kunglao.py:1049-1069 | the count is the length of the run of equal signatures that ends the tail |
| Drift.DriftDetected | hooks/lib_kunglao.py:1072-1102 | drift is reported exactly when that run reaches the threshold and no worker in progress wrote its status file within the fresh minutes |
| Drift.RunIsLongest | hooks/lib_kunglao.py:1049-1069 | the counted run is all equal and cannot be extended by one more signature |
| Drift.WindowedRun | hooks/lib_kunglao.py:1022-1069 | the run seen in a window is the smaller of the window's signatures and the run of the whole ledger |
| Drift.BoundedVerdictExact | hooks/lib_kunglao.py:1022-1069 | the bounded verdict agrees with the unbounded one exactly when the true run is below the threshold or the window holds that many signatures; always when no row of the tail is malformed and the threshold fits the window |
| Drift.ThreeEqualRows | hooks/lib_kunglao.py:1049-1102 | of equal readable rows the gate counts up to six, and three are enough for a drift |
| Drift.ProgressWindow | hooks/lib_kunglao.py:1072-1102 | a worker counts as progressing exactly while its status is in progress and its file younger than twenty minutes |
| StopGate.CanonicalExact | hooks/completion_gate.py:125-154 | two blocks have one canonical form exactly when they differ at most in writing a date or an unknown object as its text, at any depth |
| StopGate.JoinInjective | hooks/completion_gate.py:232-240 | the NUL-joined payload fixes its fields as soon as the fields of one side are free of NUL |
| StopGate.ArmedExactly | hooks/completion_gate.py:408-424 | a block is armed exactly when it stands under the two keys, as mappings, and carries a second stop that is not empty |
| StopGate.CrashExactly | hooks/completion_gate.py:408-424 | reading it raises exactly when the adjudication is neither empty nor a mapping |
| StopGate.KeyLength | hooks/completion_gate.py:247-339 | with a key of 32 characters or more everything but a blank decision is sealed; with none or a shorter one nothing is, and no seal verifies |
| StopGate.Gate.SecondstopAnchor | hooks/completion_gate.py:166-209 | the ledger gains the block's anchor when it has none and can be read and written, is untouched otherwise; the verdict is yes exactly when the block's sha is then anchored and no read or write failed |
| StopGate.Gate.SanctionMint | hooks/completion_gate.py:247-287 | the stored record is replaced by one sealed over workspace, origin, stripped decision, block and time, or nothing changes |
| StopGate.Gate.ProcessSecondStop | hooks/completion_gate.py:397-463 | exit 0 exactly after a positive anchor verdict and a seal that verifies; the ledger alone may change |
| StopGate.Gate.ProcessFirstStop | hooks/completion_gate.py:515-526 | the judge's code decides; a zero seals an armed block with PASS and origin gate before the late checks |
| StopGate.Gate.CliMint | hooks/completion_gate.py:606-692 | the operator's decision is sealed over the armed block unless it contradicts the decision the block already carries |
| StopRuns.MintKeepsInv | hooks/completion_gate.py:247-287 | sealing keeps the invariant that every stored MAC that verifies is under a known key or belongs to a mint of the history |
| StopRuns.StepKeepsInv | hooks/completion_gate.py:232-353 | every step of the gate and every oracle, ledger and key write or read by anybody keeps that invariant, and so does every store write whose MAC is under a key the writer knows, or the gate's own |
| StopRuns.RunInv | hooks/completion_gate.py:232-353 | in every such run, whatever is written to the ledgers, every mint of the history was made by a step that sealed that very block |
| StopRuns.SealIsMint | hooks/completion_gate.py:290-339 | a seal that verifies under a key nobody else knows is a mint of the same workspace with PASS under that key on a block of the same canonical form |
| StopRuns.ReleaseProvenance | hooks/completion_gate.py:397-463 | in every run of first stops, second stops, operator mints, oracle, ledger, key and store writes and key reads by anybody, a release under a key that nobody else planted or read is preceded by a first stop of the workspace whose judge returned 0, or an operator's PASS, on a block equal up to the writing of dates |
| StopRuns.ForgeableExactly | hooks/completion_gate.py:290-339 | in every such run that never sealed the armed block, with the anchor verdict yes, somebody else can write a record that releases it if and only if the key in use is one they planted or read |
| StopRuns.OwnKeyReleases | hooks/completion_gate.py:290-339 | the failing side for every armed block: plant a key, write a record under it, and the second stop releases with nothing sealed |
| StopRuns.ReadKeyReleases | hooks/completion_gate.py:290-339 | and so does whoever has read the key in use |
| StopRuns.SecondStopEndsExactly | hooks/completion_gate.py:397-463 | the process ends the session exactly on a verified release, or when resolving the workspace raises, or on an adjudication value that is neither empty nor a mapping, and the release excludes the other two |
| StopRuns.SecondStopWrites | hooks/completion_gate.py:166-209 | a second stop writes one anchor row on the first sighting of an armed block that the ledger can take, whether the seal verifies or not, and nothing else ever |
| StopRuns.TamperEvident | hooks/completion_gate.py:290-339 | a record with the MAC of a sealed one verifies only if it is that record, for the same workspace, on a block equal up to the writing of dates |
| StopRuns.FirstStopEndsExactly | hooks/completion_gate.py:465-603 | in an active workspace a first stop ends the session exactly when the judge finds nothing open and the late checks nothing owed, or when the oracle is there and cannot be read or decoded |
| StopRuns.FirstStopRefuses | hooks/completion_gate.py:465-603 | the judge's refusal is handed on as it is, a crash of the judge and an oracle that is missing or no YAML exit 3, and none of them changes anything |
| StopRuns.OperatorSealsExactly | hooks/completion_gate.py:606-692 | the operator's command succeeds exactly for an armed block, a decision that is not blank and does not contradict the recorded one, a usable key and a writable store; otherwise it changes nothing and exits 2 or raises |
| StopRuns.ExitCodeProvenance | hooks/completion_gate.py:695-708 | on every second stop without these two, exit code 0 under a key nobody else knows has the provenance of a release |
| StopRuns.ExitCodeProvenanceFails | hooks/completion_gate.py:695-708 | one concrete input for each of the two, on which the process exits 0 although nothing was ever sealed |
| StopRuns.ReleasedIs | hooks/completion_gate.py:417-451 | a second stop releases exactly when the block is armed, the ledger holds its anchor or has none and takes it, and the seal verifies against store and key as they were |
| StopRuns.ReleaseExactly | hooks/completion_gate.py:290-339 | while only the gate writes its store, a second stop releases if and only if the anchor verdict is yes and the latest mint of the workspace is a PASS under the key in use on this block: a later deferral withdraws it, and nothing else is needed |
| StopRuns.JudgedStopReleases | hooks/completion_gate.py:515-526 | from any state with a usable key and a positive anchor verdict, a first stop whose judge returns 0 makes the next second stop release |
| StopRuns.AnchorAgreement | hooks/completion_gate.py:166-209 | in every run that leaves a workspace's anchors to the gate its ledger only grows, its set of anchored shas never changes once it is not empty, and it never gets a second anchor |
| StopRuns.ReleaseCarriesAnchor | hooks/completion_gate.py:417-451 | every release carries the anchored sha, which is in the ledger afterwards |
| StopRuns.AnchoredForGood | hooks/completion_gate.py:166-209 | once a workspace's ledger anchors a sha, no such run from there on ever releases a block with another |
| StopRuns.FirstArmedStopDecides | hooks/completion_gate.py:417-451 | after a first armed second stop, sealed or not, every later release of the workspace in every such run is of that block |
| PathHygiene.SysPath.DeleteFirst | hooks/_path_hygiene.py:78-90 | removing an entry by its normalised name takes the first copy and no other |
| PathHygiene.SysPath.EnterBlock | hooks/_path_hygiene.py:66-77 | a block puts its target first and owns the removal exactly when the target was not on the path |
| PathHygiene.SysPath.LeaveBlock | hooks/_path_hygiene.py:78-90 | an owning block removes one copy on its way out, another block changes nothing |
| PathHygiene.SysPath.EnsureOnPath | hooks/_path_hygiene.py:100-128 | the new path and ledger of a permanent entry in each of its cases: ledger hit, already present, moved to the front, inserted |
| PathHygiene.FrontStays | hooks/_path_hygiene.py:114-126 | an entry that is in front already keeps its place and spelling |
| PathHygiene.SysPath.Run | hooks/_path_hygiene.py:65-128 | running a nested program in place reaches the path and ledger of its meaning |
| PathHygiene.BlocksRestore | hooks/_path_hygiene.py:65-90 | a program of blocks alone, nested however deep, restores the path entry for entry |
| PathHygiene.Simulation | hooks/_path_hygiene.py:65-128 | two states that agree except on one name still do after any program that never ensures that name, and the name's copies are unchanged |
| PathHygiene.BlockErasure | hooks/_path_hygiene.py:65-128 | a block around any nested program that never ensures its target leaves the same normalised path and ledger as the program alone |
| PathHygiene.SelfEnsuringBlock | hooks/_path_hygiene.py:114-126 | a block always takes its target off again; the ledger is wrong about it, and later calls that do not ask for the front leave it off the path, exactly when the body ensured it |
| PathHygiene.FlattenRuns | hooks/_path_hygiene.py:65-128 | running a program's operations one at a time reaches the program's own result, so invariants over steps cover nested programs |
| PathHygiene.CopiesBounded | hooks/_path_hygiene.py:43-128 | in every run the copies of a normalised entry never exceed one or their initial number |
| PathHygiene.InitialPathStaysSuffix | hooks/_path_hygiene.py:65-128 | without front moves the initial path stays a suffix of the path, at every point of every run |
| PathHygiene.LedgerStaysTrue | hooks/_path_hygiene.py:100-128 | every ledger entry is on the path in every run in which no open block has its target ensured |
| CommandWalker.UnwrapSegment | hooks/orchestrator_tool_guard.py:138-176 | the loop with its recursion through shell strings terminates, by the total length of the tokens, and yields the words of the walk |
| CommandWalker.ConsumeOptions | hooks/orchestrator_tool_guard.py:159-165 | options and numbers after a flagged wrapper are skipped to the first other token |
| CommandWalker.ConsumeFlags | hooks/orchestrator_tool_guard.py:166-172 | flags after a plain wrapper are skipped, with the operand of those that take one |
| CommandWalker.SegmentCommandWords | hooks/orchestrator_tool_guard.py:179-188 | the words of all segments of a command line, in order |
| CommandWalker.MatchAnalysisBinary | hooks/orchestrator_tool_guard.py:191-197 | the first command word that is an analysis binary is returned, and none exactly when no command word is one |
| CommandWalker.PayloadSmaller | hooks/orchestrator_tool_guard.py:151-158 | the text handed to the recursion is shorter than the tokens it came from |
| WrapperStacks.NormalizeQuoted | hooks/orchestrator_tool_guard.py:129-135 | quotes that hug a token never change the command word it gives |
| WrapperStacks.PayloadTokens | hooks/orchestrator_tool_guard.py:151-158 | the shell branch gives back the tokens of the quoted text, with the opening quotes off the first and the closing quotes off the last |
| WrapperStacks.ShellStringWalks | hooks/orchestrator_tool_guard.py:151-158 | the walk of a quoted stack is the walk of the stack with its quotes gone |
| WrapperStacks.StackIsTransparent | hooks/orchestrator_tool_guard.py:138-176 | any stack of assignments, wrappers with flags, flagged wrappers with options and numbers, and nested quoted `sh -c` strings in front of a command, and any tokens after it, give the command word of the bare command |
| WrapperStacks.WrappedCommandFound | hooks/orchestrator_tool_guard.py:179-188 | the same of the whole command line: its one command word is the wrapped command's |
| WrapperStacks.HookFindsBinary | hooks/orchestrator_tool_guard.py:71-107 | with the hook's own tables, behind any stack of its wrappers an analysis binary is the one command word of the line |
| CommandLines.SegmentsExact | hooks/orchestrator_tool_guard.py:86-87 | a segment ends at the first separator, which is dropped, and a double separator leaves no empty segment behind |
| CommandLines.SplittingLaw | hooks/orchestrator_tool_guard.py:179-188 | the command words of any pieces joined by any of the six separators are the words of the pieces, in order |
| CommandLines.FreePiece | hooks/orchestrator_tool_guard.py:179-188 | and a piece without separators has the words of its tokens |
| CommandLines.ShellStringSplits | hooks/orchestrator_tool_guard.py:151-158 | the string of a `sh -c` call is split in the same way |
| CommandLines.EveryWrappedFound | hooks/orchestrator_tool_guard.py:138-188 | a line of commands, each behind its own stack of wrappers, joined by any separators, yields the bare commands' words in order; also when the line is one quoted shell string |
| CommandLines.HookFindsBinaryAnywhere | hooks/orchestrator_tool_guard.py:138-197 | with the hook's own tables a wrapped analysis binary is found in any segment of a line, whatever stands before and behind |
| CommandLines.WordsAtSpace | hooks/orchestrator_tool_guard.py:179-188 | white space splits words wherever it stands |
| CommandLines.AssignExact | hooks/orchestrator_tool_guard.py:88-90 | a token is skipped as an assignment exactly when it is a name, an equals sign and any value |
| CommandLines.OptionExact | hooks/orchestrator_tool_guard.py:159-165 | a flagged wrapper skips exactly flags and digits with at most one dot |
| CommandLines.NormalizePath | hooks/orchestrator_tool_guard.py:129-135 | the command word of a path, whatever quotes, brackets and directories stand around it and in whatever case its program suffix is, is its base name in lower case |
| CommandLines.ShellAlone | hooks/orchestrator_tool_guard.py:150-176 | a shell without `-c` is itself the command word |
| CommandLines.NothingWrapped | hooks/orchestrator_tool_guard.py:167-172 | a wrapper followed by flags and their operands only yields no word |
| DispatchGate.Gate.LogStrategyDispatch | hooks/dispatch_gate.py:1019-1066 | an allowed dispatch cuts the log to its last 200 rows and appends its own |
| DispatchGate.Gate.PqDispatchedBefore | hooks/dispatch_gate.py:1540-1579 | the two scans find a question exactly when a dispatch row of the strategy log or any row of the intent log answers it |
| DispatchGate.Gate.HypothesisAdmission | hooks/dispatch_gate.py:1906-1980 | the gate stops an attempt exactly on a first dispatch of a primary question with fewer than three candidates in a readable store |
| DispatchGate.Gate.RunGates | hooks/dispatch_gate.py:2283-2421 | the first gate of a list that stops decides |
| DispatchGate.Gate.MainInner | hooks/dispatch_gate.py:2215-2449 | the gates answer in the source's order; history rows are written on the allow tail only |
| DispatchGate.Gate.Run | hooks/dispatch_gate.py:2189-2212 | the journal of the attempt is confirmed on code 0, aborted on code 2, left alone otherwise |
| DispatchGate.LogIsTail | hooks/dispatch_gate.py:1019-1066 | after any run the strategy log is the last 201 of the old rows followed by one row per allowed dispatch; stopped attempts leave none |
| DispatchGate.AdmissionExact | hooks/dispatch_gate.py:1906-1980 | after any run from any log a claim passes exactly when it has no primary question, a dispatch row among the last 201 or any recorded intent answers its question, or the store is down or holds three candidates |
| DispatchGate.AdmittedForTwoHundred | hooks/dispatch_gate.py:1540-1579 | one allowed dispatch admits its question for at least the next 200 allowed dispatches, whatever happens between |
| DispatchGate.AdmittedForever | hooks/dispatch_gate.py:1540-1579 | a recorded intent admits its question for good |
| DispatchGate.JournalSettled | hooks/dispatch_gate.py:2189-2212 | over any run the confirmed and aborted journals are those of exactly the attempts in a workspace that ended with codes 0 and 2, in order and once each; the last one is pending exactly when its code is neither or it is outside a workspace |
| DispatchGate.DemotedRejection | hooks/dispatch_gate.py:419-450 | over any run of rejected first dispatches each exits 0 with its journal confirmed, none leaves history, and admission answers every later attempt as it would have before |
| DispatchGate.RejectsExactly | hooks/dispatch_gate.py:1906-1980 | the admission rejects exactly a claim that answers a primary question no dispatch row and no intent row is about, while the store is up and holds fewer than three candidates |
| DispatchGate.MustStopRefused | hooks/dispatch_gate.py:2276-2289 | an irreversible dispatch in an active workspace exits 2, its journal is aborted and it leaves no history, whatever failures, later gates and the admission say |
| DispatchGate.IrreversibleNeverGoesOut | hooks/dispatch_gate.py:2276-2289 | the same at any point of any run |
| DispatchGate.EarlyStops | hooks/dispatch_gate.py:2221-2321 | tool and lane codes come before activation, a sleeping workspace and a dispatch without a claim pass, and a blocked failure exits 0 before any later gate is asked |
| DispatchGate.LateStops | hooks/dispatch_gate.py:2323-2391 | after these the first gate before the admission that answers decides, then the admission, then the first gate behind it |
| DispatchGate.HistoryExactly | hooks/dispatch_gate.py:2386-2421 | an attempt leaves a strategy row and an intent row exactly when every gate passes, and then exits 0 |
| DispatchGate.OthersJournal | hooks/dispatch_gate.py:2189-2212 | a journal about another claim is left as it was |
| Breaker.WarnBreaker.RecordFamily | hooks/gate_policy.py:105-143 | the new state of a family, and whether its row is suppressed: exactly when it had tripped |
| Breaker.WarnBreaker.WarnSidecar | hooks/gate_policy.py:179-210 | a warning is reported as landed exactly while its family has not tripped, and its row is there unless the append failed |
| Breaker.StepView | hooks/gate_policy.py:105-143 | a step for one family leaves the rows, trips and counters of every other family alone |
| Breaker.ClosedForm | hooks/gate_policy.py:105-143 | after n demotions of a family in any interleaving: count min(n, 24), the rest suppressed, a row for each of the first 24 that could be written, one trip exactly from the 24th on, with the action fixed then |
| Breaker.WrittenBound | hooks/gate_policy.py:179-210 | these rows are at most min(n, 24), and that many when no append fails |
| Breaker.LossBound | hooks/gate_policy.py:80-143 | with k losses of the state file and u failed saves, at most 24(k+1)+u rows and k+1+u trips |
| RepeatLadder.Evaluate | hooks/bash_fact_guard.py:155-195 | mentioned files are split once each into targets, with errors and warnings partitioned, and clean ones |
| RepeatLadder.PartitionKeepsAll | hooks/bash_fact_guard.py:155-195 | errors and warnings together are all findings and nothing else |
| RepeatLadder.EvaluateWellFormed | hooks/bash_fact_guard.py:155-195 | no file is a target twice, and none is both a target and clean |
| RepeatLadder.ClassifiedExactly | hooks/bash_fact_guard.py:155-195 | a file is a target exactly when its first mention, up to case, was linted and has findings, split into errors and warnings, and clean exactly when that mention was linted and has none |
| RepeatLadder.LaterMentionsAppend | hooks/bash_fact_guard.py:155-195 | targets and clean files come in the order of their first mentions |
| RepeatLadder.FindingsAdd | hooks/bash_fact_guard.py:184-187 | errors and warnings keep their order, and together are as many as the findings |
| RepeatLadder.Blocks.Reset | hooks/bash_fact_guard.py:241-242 | clean files lose their streaks, all others keep them |
| RepeatLadder.Blocks.Advance | hooks/bash_fact_guard.py:246-257 | the streak of each broken rule of the file grows by one, every other streak is unchanged |
| RepeatLadder.Blocks.ApplyRepeatLadder | hooks/bash_fact_guard.py:228-267 | the nested dictionary after a call, and the files first reported, warned at three and escalated at five |
| RepeatLadder.LadderRefinesHistory | hooks/bash_fact_guard.py:228-267 | in every run the stored streak of a file and rule is the number of calls that broke the rule since the file's last clean call |
| RepeatLadder.EmitsExactly | hooks/bash_fact_guard.py:244-262 | in every run a file and rule are in the list a call emits for a rung exactly when that call is the one that breaks the rule for the rung's count since the file's last clean call |
| RepeatLadder.ListsAdd | hooks/bash_fact_guard.py:244-262 | the lists of a call come in the order of its targets |
| RepeatLadder.FirstExactly | hooks/bash_fact_guard.py:244-262 | and a file is in the emitted `first` exactly when the call breaks some rule of it for the first time since then |
| RepeatLadder.ReportedOnce | hooks/bash_fact_guard.py:228-267 | a file and rule are in the emitted lists of one rung twice only with a clean call of the file between |
| RepeatLadder.ReportedWhenReached | hooks/bash_fact_guard.py:228-267 | a streak of n has been emitted under every rung up to n, with no clean call of the file since |
| RepeatLadder.FirstsBounded | hooks/bash_fact_guard.py:228-267 | since its last clean call a file is in the emitted `first` lists at most once per distinct rule it broke |
| RepeatLadder.WarningsLeaveStreaks | hooks/bash_fact_guard.py:188-192 | a call that finds only warnings in a file leaves all its streaks as they were |
| RepeatLadder.ResetExactly | hooks/bash_fact_guard.py:155-195 | a file linted without errors has no streak left after the call if and only if it has no warnings either or had no streak before |
| MarkerSections.MarkerSpans | devkit/agents_lint.py:101-116 | the loop lists the marker lines outside fences, in order |
| MarkerSections.SectionEnd | devkit/agents_lint.py:119-154 | the end of a section is the first marker of any element after it, or the end of the file |
| MarkerSections.LintMarker | devkit/agents_lint.py:119-154 | one occurrence is reported exactly when fewer lines than the floor count in its section |
| MarkerSections.LintText | devkit/agents_lint.py:119-154 | the report of a file, element by element |
| MarkerSections.CleanExactly | devkit/agents_lint.py:119-154 | the report is empty exactly when every element has a marker and every section of every marker reaches the floor |
| MarkerSections.ReportExact | devkit/agents_lint.py:119-154 | a violation is reported exactly when it is so: an element without a marker, or a marker whose section, counted line by line, holds fewer than two lines that count |
| MarkerSections.ReportOrder | devkit/agents_lint.py:119-154 | the report names the elements in the contract's order and the markers of each from the top down |
| MarkerSections.FencedIsOdd | devkit/agents_lint.py:101-116 | a line stands in a fenced block exactly when an odd number of fences stands above it |
| MarkerSections.MarkedExactly | devkit/agents_lint.py:101-116 | a line marks an element exactly when it reads as its marker, is no fence itself and stands in no fenced block |
| MarkerSections.PaddingChangesNothing | devkit/agents_lint.py:119-154 | inserting any number of blank or comment-only lines that are neither markers nor fences, anywhere, changes the report in its line numbers only |
| AgentsLint.StripInlineHtmlComments | devkit/agents_lint.py:82-98 | the loop terminates with the line stripped of its spans |
| AgentsLint.StripExact | devkit/agents_lint.py:82-98 | no complete span is left, also when a removal creates one; a line is unchanged exactly when it has none; stripping is idempotent |
| AgentsLint.CommentCutOut | devkit/agents_lint.py:82-98 | the first comment of a line is cut out and nothing else: the texts before and behind it stay and are stripped together |
| AgentsLint.TextsAreKept | devkit/agents_lint.py:82-98 | a line of texts and comments strips to its texts when no comment holds a closer, no opener stands among the texts before the last comment and the texts put together hold no span |
| AgentsLint.TextsAreKeptExactly | devkit/agents_lint.py:82-98 | for comments without a closer, also together with their opener's dashes, that condition is necessary too |
| AgentsLint.OpenerTakesCloser | devkit/agents_lint.py:82-98 | texts without a span are not enough: an opener among them takes the closer of the comment |
| AgentsLint.MarkerExact | devkit/agents_lint.py:67-70 | a line is an element's marker exactly when it reads so from end to end, with any blanks between the parts |
| AgentsLint.FenceExact | devkit/agents_lint.py:72 | a line is a fence exactly when three backticks or three tildes follow its blanks |
| AgentsLint.SubstantiveExact | devkit/agents_lint.py:138-139 | a line counts exactly when something other than blanks is left of it without its comments |
| AgentsLint.LintFile | devkit/agents_lint.py:119-154 | the report of a file with the lint's own fence, marker and substance patterns |
| DocIndex.ParsePins | devkit/doc_sync.py:124-140 | the loop over the lines gives the pins of the files block |
| DocIndex.PinRoundTrip | devkit/doc_sync.py:124-140 | a printed pair is read back exactly when its digest has no colon (paths may have some), and its line is taken for the header in one case only |
| DocIndex.PinsRoundTrip | devkit/doc_sync.py:124-140 | any printed pin map is read back, wherever its block stands in the file |
| DocIndex.ParseNamedList | devkit/doc_sync.py:285-312 | the loop over the lines gives the list's entries, or nothing |
| DocIndex.NoneExactly | devkit/doc_sync.py:305-312 | nothing is returned exactly when the list is not the block still open at the end of the file |
| DocIndex.NamedListRoundTrip | devkit/doc_sync.py:285-312 | a printed list of entries that is the last block is read back entry by entry |
| DocIndex.LineAfterList | devkit/doc_sync.py:300-312 | after a printed list blank lines, comments and other indented lines change nothing, and any other line closes the list and loses it |
| IndexScalars.ScalarExact | devkit/doc_sync.py:272-282 | every value: a JSON string in blanks reads as its decoded characters, everything else, also what only looks quoted, as its own text without the blanks |
| IndexScalars.IndexRoundTrip | devkit/doc_sync.py:272-312 | a named list whose names and fields are written as JSON strings, or raw in any text that is none, is read back to the written values, key by key |
| IndexScalars.EveryTextReads | devkit/doc_sync.py:272-282 | every string has a quoted writing that reads as it; as its own writing it reads as itself if and only if it has no outer blanks and is not the text of a JSON string |
| IndexScalars.LooksAreNotEnough | devkit/doc_sync.py:272-282 | a concrete text between quotes that is no JSON string and reads as itself, quotes included |
| Recall.FindStarts | hooks/recall_inject.py:180-196 | the section starts are the first line and the heading lines, in order |
| Recall.HeadingExact | hooks/recall_inject.py:193 | a heading line is one to six hashes, white space and anything |
| Recall.SectionsPartition | hooks/recall_inject.py:180-196 | the sections are non-empty, in order, each ends where the next begins, and they run from the first line to the last |
| Recall.LineInOneSection | hooks/recall_inject.py:180-196 | every line is in exactly one section |
| Recall.BestSection | hooks/recall_inject.py:198-205 | the chosen section holds the most query tokens and is the earliest that does |
| Recall.SectionAnchor | hooks/recall_inject.py:180-205 | the anchor lies within the file and spans the best section, line 1 of an empty file |
| Recall.SectionTextJoins | hooks/recall_inject.py:198-200 | the text of a section is its lines with a newline between each two, wherever it is cut |
| Recall.AnchorOf | hooks/recall_inject.py:180-205 | the same with the hook's own heading pattern and its count of the tokens a section shares with the query |
| Recall.NoOverlapIsFirst | hooks/recall_inject.py:180-205 | a section without a token of the query is anchored only when it is the first |
| Recall.LongerRendersLonger | hooks/recall_inject.py:556-570 | a longer list of items renders strictly longer |
| Recall.JoinedAdds | hooks/recall_inject.py:556-570 | the rendered items are counted with a comma and a blank between each two |
| Recall.QueryAdds | hooks/recall_inject.py:540-570 | the queries are joined by blanks and all count towards the budget |
| Recall.TrimToBudget | hooks/recall_inject.py:556-570 | the loop keeps the longest non-empty prefix that fits 1200 characters, or one item when none does |
| Recall.Guidance | hooks/recall_inject.py:540-570 | the anchors of the first three files, cut to what fits the budget beside the joined queries and the block's own words, and never empty when there is a file |
| Recall.FirstThree | hooks/recall_inject.py:540-555 | at most the first three files are anchored |
| Recall.OverBudgetStaysOver | hooks/recall_inject.py:556-570 | every longer prefix than one over the budget is over it too, so what is kept cannot be extended |
| Recall.Dedup.InjectionContext | hooks/recall_inject.py:279-307 | one worker's stored set is replaced when, and only when, something is injected |
| Recall.InjectedExactly | hooks/recall_inject.py:642-674 | in every run a worker is injected exactly when the set is not empty and differs from the last non-empty one recalled for it, whatever other workers do |
| EscapeRate.AppendRow | devkit/escape_rate.py:77-86 | the new document is the old one with the release's section replaced, or appended |
| EscapeRate.Replaces | devkit/escape_rate.py:77-86 | replacing keeps the text before and after the section character by character and makes the section the row |
| EscapeRate.Appends | devkit/escape_rate.py:77-86 | appending keeps the document up to its trailing newlines and makes the row the last section |
| EscapeRate.UpsertFixedPoint | devkit/escape_rate.py:77-86 | the upsert is a fixed point from its second application on, and already from its first exactly when the release was in the document |
| EscapeRow.DocRowIsRow | devkit/escape_rate.py:66-74 | the row written for a release starts with its own header, holds no other heading and ends in a newline |
| EscapeRow.RowLines | devkit/escape_rate.py:66-74 | each count stands in its own line, and the listed escapes, or a dash, behind theirs |
| EscapeRow.DecimalExact | devkit/escape_rate.py:66-74 | a number's digits stand for it and none is superfluous |
| EscapeRow.TagsApartExactly | devkit/escape_rate.py:77-80 | the headers of two names without blanks can nowhere overlap if and only if the names differ and neither ends in three hashes |
| EscapeRow.HeadersApart | devkit/escape_rate.py:77-80 | for any names it is enough that neither header begins the other and the heading mark stands in each only at its start |
| EscapeRow.RowQuotesNobody | devkit/escape_rate.py:66-74 | no row holds the header of another release, of any two whose headers cannot overlap |
| EscapeRow.AppendRowExact | devkit/escape_rate.py:66-86 | for every document and any two releases whose headers cannot overlap, a write leaves the other one's section as it was if and only if: on an append a heading or exactly two newlines end it; above, it ends before the replaced section or that one already is the row; below, it starts at or after the end of the replaced section or the text after that end first opens the same section |
| EscapeSections.OthersExact | devkit/escape_rate.py:77-86 | the same for any headers, also of names with blanks, that are found apart from each other |
| EscapeSections.AboveExact | devkit/escape_rate.py:77-86 | a section above the replaced one is unchanged exactly when it ends above it or the replaced one already is the row |
| EscapeSections.BelowExact | devkit/escape_rate.py:77-86 | a section below is unchanged exactly when it starts at or after the replaced one's end, or the rest of the document opens the same section first |
| EscapeSections.AppendExact | devkit/escape_rate.py:77-86 | on an append a section is unchanged exactly when another heading ends it or the document ends in exactly two newlines |
| EscapeSections.OthersUnchanged | devkit/escape_rate.py:77-86 | in particular two headers at line starts leave each other's sections alone |
| EscapeRow.HeadersOnTheirLines | devkit/escape_rate.py:77-86 | it is enough that the later of the two headers starts its line |
| EscapeRow.QuotingIsReplaced | devkit/escape_rate.py:77-86 | in every document in which a section holds the other header, wherever on its line, that section is cut there and ends in the row; it is unchanged if and only if the row stood there already |
| EscapeRow.QuotingDocumentChanges | devkit/escape_rate.py:77-86 | such a document for any two releases, changed by any row |
| EscapeRow.QuotedHeaderIsReplaced | devkit/escape_rate.py:77-86 | one such document in full: the section of `v1` quotes the header of `v2` |
| EscapeRow.BlankNameIsTaken | devkit/escape_rate.py:77-86 | a release whose header is found at that of a longer name with a blank takes that one's section |
| EscapeRate.ComputeRate | devkit/escape_rate.py:38-63 | every issue of the cycle is counted once, before or after the tag, the listed escapes are as many as the ones after, and the rate is theirs of the total |
| EscapeRate.RateIsShare | devkit/escape_rate.py:59-60 | the rate times the total is a hundred times the escapes, between 0 and 100, and there is none exactly for an empty cycle |
| EscapeRate.EscapedExactly | devkit/escape_rate.py:38-63 | a number is listed exactly when an issue of the cycle with it was created at or after the tag |
| EscapeRate.IssuesAdd | devkit/escape_rate.py:38-63 | counts and listed escapes of issues taken together are those of the parts, in order |
| EscapeRate.OneIssue | devkit/escape_rate.py:38-63 | one issue counts unless created before the cycle's start, and is listed unless created before the tag |

## Left out

- Files, locks, subprocesses, git and gh, stdin and stdout, clocks, telemetry, warn de-duplication and message wording: none of them decides what is modelled.
- Crypto internals: sha256, the fingerprint and HMAC are ideal functions; the recall hash of a set is taken as the set itself.
- JSON beyond RFC 8259: `NaN`, `Infinity` and white space around a document, which the reader also accepts.
- Python conversions of decoded values: `int`, `str`, `isdigit` and `isspace` on values other than integers and strings are parameters of `Envelope.ReadPayloadOf`.
- YAML: what the reader returns is a value; mapping keys that are not strings are not modelled.
- `splitlines`, `read_text` and universal newlines: the line-level parsers take the sequence of lines.
- CommandWalker.MatchAnalysisBinary: lower-casing and digits are those of ASCII, because Unicode case folding and numerals have no counterpart here.
- WrapperStacks.StackIsTransparent: with a shell layer the tokens hold no white space and no separator character, which is what splitting a segment produces.
- Regular-expression rule tables of the guards and gates: they are data; the start pattern, assignments, headings, fences and markers are predicates here.
- DispatchGate.Gate.MainInner: the gates before and after the admission answer arbitrarily, because what they check lies in modules that are not part of this model.
- Breaker.WarnBreaker.RecordFamily: a family is one name; how gate, class and name are joined into it, and which classes block, are left out.
- RepeatLadder.Blocks.ApplyRepeatLadder: reading and saving the state file is left out, so a lost file is a new run.
- EscapeRate.ComputeRate: dates are integers, and the rounding of the rate to one digit of floating point is left out; a row carries the rate's text.
- StopGate.Gate.ProcessFirstStop: owed notes, discriminators and the judge itself are arbitrary codes.
- StopRuns.ReleaseProvenance: a MAC under a key its writer neither planted nor read is excluded by the ideal HMAC; a key learnt otherwise than from the key file counts as read from it.
- StopRuns.AnchoredForGood: somebody who writes anchor rows by hand or cuts the ledger is excluded, because the ledger is then not what the gate wrote.
- Drift.DriftDetected: the search for the workers' status files and their parsing are left out; a worker is its last status word and the time of the file.
- Recall.AnchorOf: the regular expression that cuts a text into tokens is an arbitrary function from texts to token sets.
- Recall.Guidance: the block's wording stands for its length, and files that cannot be read are left out.
- `_path_hygiene` module loaders, workspace resolution, the `gc-harness`, the other devkit gates and the single-branch hooks: they would only add easy members.
