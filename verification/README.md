# Verified model of charlie_work's graph, text and accounting cores

charlie_work runs coding agents over a GitHub backlog. This project models the parts of it whose
correctness cannot be settled by examples, and proves what they promise.

* **Blocker cycles** (`Graphs`, `StronglyConnected`, `CycleSearch`, `CycleProperties`,
  `BlockerGraph`, `BlockerCycles`, `CycleReport`, `ReportContents`). Issues that wait on each other in a loop never
  dispatch. The scan computes strongly connected components with two explicit-stack passes, then
  enumerates elementary cycles anchored at their least member, under a cap on cycles, a cap on work
  and a cap on the report. Iterators are (sequence, index) pairs. The uncapped search is described by
  a recursive *trace* of its edge expansions; the loops are proved to walk that trace, and the trace
  to emit exactly the elementary cycles, each once, in lexicographic order.
* **Backlog reachability** (`BacklogReachability`). Every open issue falls in one bin; the issues
  blocked by a dependency wait on root blockers, or on a cycle the blocker scan can see.
* **Stub detection** (`DumpText`, `StubDump`, `StubVerdict`, `StubTheorem`). A definition is a stub when
  its body is one trivial statement. The program decides that from `ast.dump` text by blanking string
  literals and counting brackets; a small term type with a printer stands for the dumps.
* **Markdown structure** (`MarkdownLines`, `MarkdownStructure`, `MarkdownStrip`, `MarkdownText`). Line
  splitting, the lookahead fence scanner and fence removal, against a one-pass automaton, and the automaton
  against the characters of the lines. The rules come from
  CommonMark 0.31.2: sections 2.1 (line endings), 2.2 (tabs), 4.2 (ATX headings), 4.5 (fenced code
  blocks) and 5.1 (block quotes).
* **Facade shims** (`ShimParser`, `ShimPatterns`, `ShimBlocks`, `ShimSource`, `ShimRoundTrip`, `ShimPaths`,
  `ShimReader`, `ShimValues`). The printed PEP 562 facade, the parser that reads the moved names back out of
  it, and a reader that takes its mappings as Python does, string escapes included.
* **Moved and copied symbols** (`SymbolMoves`, `MoveWitnesses`, `MoveTexts`). Which definitions a diff moves or copies
  between files, and which of the moves are reported as equivalent.
* **GitHub budget and worker spend** (`UsedCursor`, `SpendLanes`, `RateWindows`, `SpendLedger`,
  `UsageEvents`). Points counted from a server counter with a pruned cursor, shared by many clients;
  newest-wins rate windows; an idempotent ledger; token usage from a session's events.
* **Bounded reruns** (`CheckSummary`, `CheckTexts`, `CheckReruns`, `CheckRerunBounds`, `RerunTexts`,
  `TimedOutChecks`, `AggregateHeal`, `HealRuns`, `HealClock`). Verdicts on required checks, and two state machines that rerun failures a bounded number of
  times.
* **Capacity starvation** (`CapacityStarvation`, `StarvationNumbers`). One escalation per unbroken streak of starved passes.
* `Sorting` holds Python's orders and sorts, and small facts on sequences and sets; `Clock` holds instants.

Code that updates things in place is modelled by methods with loops or by classes, each proved against
a function or predicate; the theorems are lemmas about those. What the small tests and keys in such a
specification mean -- what closes a fence, which states count as infrastructure, which window is newer -- is
stated once more in characters, texts and numbers, without naming them: the lemmas ending in `ByText`,
`ByFields`, `InNumbers` and the like.

## Where the code and its description differ

* `_is_trivial_stub_dump` says a body of one bare string is a stub. A u-prefixed string whose `repr` needs
  double quotes is dumped with `kind='u'` after it, and the double-quote test does not accept that.
  `StubTheorem.StubVerdictExact` states the exact set of accepted bodies and
  `StubTheorem.UPrefixedDocstringIsMissed` gives a definition that is missed.
* `classify_check_failures` and `classify_infra_failures` describe each failing check as either retried or
  definitive. A check required twice can be both: `CheckRerunBounds.ListedTwiceIsBoth` gives the pass.
  `CheckRerunBounds.BothExactly` says exactly when a failing name is both in one pass, and
  `CheckRerunBounds.ExclusiveExactly` that "never both" holds of every state and every check list exactly
  when no check is required twice (or the cap allows no rerun).
* The rules of both rerun passes name two things that clear the attempts: a check that passes, and a new head.
  A third does: a call with nothing required hands back no attempts, so the next failure starts afresh.
  `CheckRerunBounds.KeptExactly` says exactly when a pass keeps the attempts of a name, and
  `CheckRerunBounds.UnrequiredPassForgets` gives three passes on one head, with a cap of one, that rerun one run
  twice. The bounds below count from the last time the attempts were forgotten, for whatever reason.
* `classify_backlog_reachability` bins an issue by each of its listings, and the blocker-cycle scan reads only the
  first. A loop of blocked issues can then be missing from the graph the scan sees
  (`BacklogReachability.DisagreeingRepeatsHideTheCycle`). `BacklogReachability.CyclesSeenExactly` states when this
  can happen: exactly when a later listing of an issue declares a blocker that the first does not, and a listing
  of that blocker shares a label with it.
* The starvation detector promises a single event per episode. A pass that fires raises one event per target
  over its capacity, so one exactly when the plan has one such target for the repository
  (`CapacityStarvation.OneEventPerListing`); `CapacityStarvation.TwiceRaisesTwo` gives a plan with two.
* The heal lane promises one rerun per workflow run. The memory keeps 200 run ids.
  `AggregateHeal.AllowedExactly` states the guard exactly, `HealRuns.OneRerunExactly` that the promise holds of
  a run id, over every sequence of ticks showing a given set of ids, exactly when fewer than 200 of them are
  larger, and `HealRuns.SecondRerun` gives two ticks after which a run was accepted twice.
* `derive_moved_symbols` describes its comparison as deciding whether a move is verbatim. It compares the removed
  symbol with its first choice only: the first symbol of its bare name that the head adds elsewhere and that is
  no stub, or, when all of them are stubs, the first of them. `SymbolMoves.VerbatimMoveIsEquivalent` states the
  link is equivalent exactly when the first choice is identical. `MoveWitnesses.VerbatimMoveMissed` and
  `MoveWitnesses.VerbatimStubMoveMissed` give an identical move behind an unrelated addition, and an identical
  move of a stub listed first.

## Model

| member | source | states |
|---|---|---|
| StronglyConnected.StronglyConnectedComponents | src/charlie_work/blocker_cycles.py:162-216 | the two explicit-stack passes terminate and return exactly the mutual-reachability classes, each once, covering every vertex |
| StronglyConnected.SameComponentIffMutual | src/charlie_work/blocker_cycles.py:165-171 | two vertices share a returned component exactly when each reaches the other |
| CycleSearch.ComponentCycles | src/charlie_work/blocker_cycles.py:247-282 | the nested iterator loops, with both caps, compute the capped prefix of the recursive trace of the component |
| CycleProperties.AllCyclesExact | src/charlie_work/blocker_cycles.py:232-235 | uncapped, the search emits every elementary cycle of the component and nothing else, each once, in strictly increasing lexicographic order |
| CycleProperties.CappedIsInitialSegment | src/charlie_work/blocker_cycles.py:237-246 | under any caps the result is an initial segment of the full sorted cycle list, within the cycle cap and within max(1, budget) expansions |
| CycleProperties.UntruncatedIsComplete | src/charlie_work/blocker_cycles.py:237-241 | an untruncated component lost nothing |
| CycleProperties.TruncatedExactly | src/charlie_work/blocker_cycles.py:261-279 | a component is truncated exactly when the budget is no larger than the whole search or there are more cycles than the cap |
| BlockerGraph.SortedComponentsAreCanonical | src/charlie_work/blocker_cycles.py:329-331 | sorting the components by least member gives one sequence, whatever order the passes delivered them in |
| BlockerCycles.IsCyclicComponent | src/charlie_work/blocker_cycles.py:219-221 | the structural test agrees with the graph: two members, or a self-loop |
| BlockerCycles.FindBlockerCycles | src/charlie_work/blocker_cycles.py:320-363 | the scan is a function of the keys, the set of edges and the caps, independent of dictionary order and of repeated targets |
| BlockerCycles.ComponentResultExact | src/charlie_work/blocker_cycles.py:336-348 | one component's contribution is sound, distinct, complete unless truncated, and incomplete when truncated without a budget |
| CycleReport.ReportIsSound | src/charlie_work/blocker_cycles.py:294-300 | every reported list is an elementary cycle, least member first; the list is strictly increasing, without repeats, within the limit |
| CycleReport.UntruncatedReportIsComplete | src/charlie_work/blocker_cycles.py:66-78 | an untruncated report holds every elementary cycle of the graph, self-loops included |
| CycleReport.TruncatedIffUnreported | src/charlie_work/blocker_cycles.py:349-361 | with no step budget, the flag is set exactly when some elementary cycle is unreported |
| CycleReport.WorkIsBounded | src/charlie_work/blocker_cycles.py:310-315 | total expansions are at most max(1, budget) per component |
| CycleReport.ReportIgnoresListing | src/charlie_work/blocker_cycles.py:315-319 | graphs with the same keys and the same edges give the same report, truncated or not |
| ReportContents.ReportIsFirst | src/charlie_work/blocker_cycles.py:332-363 | under any caps the report is the first `limit` of the components' contributions, in component order, sorted, and that many |
| ReportContents.ReportExactly | src/charlie_work/blocker_cycles.py:332-363 | with no step budget each contribution is the component's sorted list of all its cycles cut to the cycle cap, so contents and size of a truncated report are determined |
| CycleReport.AcyclicReportIsEmpty | src/charlie_work/blocker_cycles.py:304-308 | an acyclic graph is reported empty, untruncated and without any search, whatever the caps |
| BacklogReachability.GetOpenBlockers | src/charlie_work/backlog_reachability.py:57-91 | the declared blockers, and those of them that are open and not the issue itself |
| BacklogReachability.ClassifyBacklog | src/charlie_work/backlog_reachability.py:260-371 | every issue in exactly one bin, bins summing to the open total; the root list is exactly the root blockers, increasing, each with its last time stamp; up to five sorted examples per unreachable bin and the sorted pull requests behind each mention; an empty fetch is unobserved |
| BacklogReachability.BinByGates | src/charlie_work/backlog_reachability.py:260-332 | an issue is dispatchable exactly when it has a number and the ready label, none of the terminal or active labels, belongs to this host, is neither claimed nor covered, and no other open issue is declared its blocker; otherwise its bin names the first of these gates it fails |
| BacklogReachability.NumbersByPosition | src/charlie_work/backlog_reachability.py:333-337 | the numbers behind a bin's examples are those of its issues, in listing order |
| BacklogReachability.ReadySeenCounts | src/charlie_work/backlog_reachability.py:276-279 | the number compared with the live ready count is that of the listings with a number and the ready label |
| BacklogReachability.LastUpdatedAt | src/charlie_work/backlog_reachability.py:346-361 | the time stamp of a root blocker is that of its last listing, none when it is not listed |
| BacklogReachability.BlockedReachesRootOrCycle | src/charlie_work/backlog_reachability.py:335-361 | from any dependency-blocked issue, open blockers lead to a root blocker or into a cycle of blocked issues |
| BacklogReachability.OpenBlockerEdges | src/charlie_work/blocker_cycles.py:96-159 | an edge for exactly the declared, open blockers of the first listing of each issue, self-references kept, each issue's targets sorted |
| BacklogReachability.CyclesSeenExactly | src/charlie_work/blocker_cycles.py:96-159 | every cycle of blocked issues is a cycle of the open-blocker graph, whatever the configuration and GitHub's answers, exactly when no later listing declares a blocker the first one hides from a listing with a common label |
| BacklogReachability.RootlessTailIsACycle | src/charlie_work/backlog_reachability.py:335-361 | blocked issues without any root contain a cycle of length two or more; unless a listing hides a blocker, the blocker scan reports it or says it stopped early |
| BacklogReachability.DisagreeingRepeatsHideTheCycle | src/charlie_work/blocker_cycles.py:96-159 | a fetch that lists one issue twice, with a cycle of blocked issues that the open-blocker graph does not have |
| BacklogReachability.DetectOpenBlockerCycles | src/charlie_work/blocker_cycles.py:366-404 | the intake pass reports only loops of open blockers, at most the standing limit, and all of them unless truncated |
| DumpText.MaskStringLiterals | src/charlie_work/ast_equivalence_stub_detection.py:18-65 | overwriting in place computes the mask, keeping the length |
| DumpText.MaskIdempotent | src/charlie_work/ast_equivalence_stub_detection.py:18-34 | masking a masked text changes nothing |
| StubDump.CommaSeparatesStatements | src/charlie_work/ast_equivalence_stub_detection.py:68-88 | a printed body list has a top-level comma exactly when it has at least two statements |
| StubVerdict.HasTopLevelComma | src/charlie_work/ast_equivalence_stub_detection.py:68-88 | the depth scan finds a comma at bracket depth zero of the masked text if there is one |
| StubVerdict.IsTrivialStubDump | src/charlie_work/ast_equivalence_stub_detection.py:91-150 | the marker search, depth scan and shape tests compute the verdict function |
| StubVerdict.BodyIsRecovered | src/charlie_work/ast_equivalence_stub_detection.py:121-138 | from any printed definition exactly the printed body list is cut out, whatever brackets, commas, quotes or body markers the string literals contain |
| StubTheorem.StubVerdictExact | src/charlie_work/ast_equivalence_stub_detection.py:91-150 | the verdict is true exactly for a single pass, ellipsis or bare-string statement, except the u-prefixed double-quoted one |
| StubTheorem.UPrefixedDocstringIsMissed | src/charlie_work/ast_equivalence_stub_detection.py:139-150 | a definition whose body is one bare string and which is not taken for a stub |
| MarkdownLines.SplitLines | scripts/heartbeat_stale_mentions.py:114-134 | the match loop yields the lines of the text, with or without endings, aligned index for index |
| MarkdownLines.JoinSplit | scripts/heartbeat_stale_mentions.py:114-134 | the keepends lines concatenate to the text |
| MarkdownLines.SplitJoin | scripts/heartbeat_stale_mentions.py:127-134 | splitting joined lines gives them back, up to merging a lone CR with an LF line after it |
| MarkdownLines.LinesByText | scripts/heartbeat_stale_mentions.py:97-134 | a text is cut into exactly the one sequence of lines that joins to it, holds no CR or LF inside a line, ends each in LF, CR or CR LF (the last perhaps in nothing) and never parts a CR from its LF |
| MarkdownStructure.StripMarkerIndent | scripts/heartbeat_stale_mentions.py:137-158 | the column loop strips the indent, or rejects exactly when it is wider than the bound, tabs advancing to multiples of four |
| MarkdownText.StripIsIndented | scripts/heartbeat_stale_mentions.py:137-158 | the strip returns a rest exactly when the line is that rest after spaces and tabs reaching at most the given column, a tab going to the next multiple of four |
| MarkdownStructure.FindFenceClose | scripts/heartbeat_stale_mentions.py:161-175 | the first closing line at or after the start, or none |
| MarkdownText.ClosesInCharacters | scripts/heartbeat_stale_mentions.py:161-175 | a line closes a fence of m marks exactly when, its indent stripped, it is m or more of that mark and then blanks only |
| MarkdownStructure.ScanLines | scripts/heartbeat_stale_mentions.py:178-234 | for any indent bound the lookahead scan agrees with the one-pass automaton on every line: same fenced, quoted and heading lines, spans sorted, disjoint, in range |
| MarkdownStructure.AgreementIsUnique | scripts/heartbeat_stale_mentions.py:178-234 | two structures that agree with the automaton are equal: same spans, quoted lines and headings |
| MarkdownText.ScanByText | scripts/heartbeat_stale_mentions.py:178-234 | a structure is what the scan reports exactly when, in characters: its spans are sorted and disjoint, each opens with m >= 3 backticks or tildes and an info text (no backtick after backticks), holds no line of m or more marks and blanks before its last, and closes with one unless the text ends; no line outside opens a fence; and the quoted lines and headings are those outside starting with `>`, or with one to six `#` and then a blank or the end |
| MarkdownStrip.StripFencedBlocks | scripts/heartbeat_stale_mentions.py:241-264 | exactly the lines outside every fenced block, verbatim and in order |
| MarkdownText.StrippedByText | scripts/heartbeat_stale_mentions.py:241-264 | cut the text at its line breaks, take the fenced blocks of its characters at any indent: stripping returns the lines in none of them, in order, with their endings |
| MarkdownStrip.RescanFindsNoFence | scripts/heartbeat_stale_mentions.py:257-264 | the stripped text has no fenced line, even where removal joins a CR with an LF |
| MarkdownStrip.StripTwice | scripts/heartbeat_stale_mentions.py:257-264 | a rescan reports no span and stripping again changes nothing |
| MarkdownStrip.NothingLostOutsideFences | scripts/heartbeat_stale_mentions.py:257-264 | text without fences comes back verbatim |
| ShimParser.ParseShimMapping | src/charlie_work/ast_equivalence_gate.py:516-557 | the match loop with brace counting computes the parse function |
| ShimPatterns.MappingByText | src/charlie_work/ast_equivalence_gate.py:516-516 | the mapping expression matches exactly a word, white space, `=`, white space and `{` |
| ShimPatterns.EntryByText | src/charlie_work/ast_equivalence_gate.py:517-517 | the entry expression matches exactly white space, a quote, a word, a quote, white space and `:`, and captures the word |
| ShimPatterns.BlockByBraces | src/charlie_work/ast_equivalence_gate.py:545-554 | the block ends before the first brace that leaves none open, or short of the last character when there is none |
| ShimPatterns.EntriesByText | src/charlie_work/ast_equivalence_gate.py:555-556 | the names taken from a block are those the leftmost matches of the entry expression capture, at line starts, none overlapping, and nothing outside them matches |
| ShimPatterns.ParseByText | src/charlie_work/ast_equivalence_gate.py:534-557 | the parser returns the names in the blocks behind the leftmost matches of the mapping expression, match after match |
| ShimSource.GenerateShimSource | src/charlie_work/ast_equivalence_gate.py:393-508 | the partition and printing loops produce the facade's lines, each newline-terminated |
| ShimPaths.ModuleByPath | src/charlie_work/ast_equivalence_gate.py:375-390 | a file's module is its path below the root directory, without `/__init__.py` or `.py`, dots for slashes |
| ShimReader.LiteralRead | src/charlie_work/ast_equivalence_gate.py:457-484 | a printed literal read with its escapes is the text that was printed, whatever it contains |
| ShimValues.FacadeReadsBack | src/charlie_work/ast_equivalence_gate.py:393-508 | reading the facade's mapping back, for the module level or any class: it is there, once, exactly when something moved out; its names are sorted, one for every name moved; and each leads to the module, and for a class member the class, that its last move went to |
| Sorting.StringLessAt | src/charlie_work/ast_equivalence_gate.py:456-456 | names are sorted by the first character in which they differ, a prefix first |
| ShimRoundTrip.ParseOfGenerated | src/charlie_work/ast_equivalence_gate.py:516-557 | parsing the generated facade yields exactly the sorted moved module-level names, then each class's sorted member names in class order |
| ShimRoundTrip.RoundTrip | src/charlie_work/ast_equivalence_gate.py:393-557 | the generator followed by the parser returns those names |
| SymbolMoves.DeriveMoved | src/charlie_work/ast_equivalence_gate.py:212-295 | the reverse index and the candidate loop compute one link per removed symbol that has a destination |
| SymbolMoves.MovesExactly | src/charlie_work/ast_equivalence_gate.py:216-245 | a symbol moves exactly when it was removed and its bare name was added to another file, and it goes to a stub only when every such addition is one |
| SymbolMoves.VerbatimMoveIsEquivalent | src/charlie_work/ast_equivalence_gate.py:264-292 | for every removed symbol, stub or not, the link is equivalent exactly when the symbol at the first-choice position of the head is byte-identical |
| SymbolMoves.FirstChoiceExists | src/charlie_work/ast_equivalence_gate.py:264-271 | there is a first choice exactly when the bare name was added to another file |
| MoveWitnesses.VerbatimMoveMissed | src/charlie_work/ast_equivalence_gate.py:272-292 | a byte-identical move, listed behind an unrelated addition, is reported as modified |
| MoveWitnesses.VerbatimStubMoveMissed | src/charlie_work/ast_equivalence_gate.py:264-271 | a byte-identical move of a stub, listed first, is reported as modified |
| SymbolMoves.OneMoveEach | src/charlie_work/ast_equivalence_gate.py:243-244 | the k-th move belongs to the k-th removed symbol that has a destination, in base order, and there are no others |
| MoveTexts.MovesByText | src/charlie_work/ast_equivalence_gate.py:246-295 | the moves are, in base order, one for each symbol no longer listed in its file whose bare name was added to another; each names both files, classes and the bare name, goes to the first added symbol that is no stub (or the first), and is equivalent exactly when the two dumps are equal |
| SymbolMoves.DeriveCopied | src/charlie_work/ast_equivalence_gate.py:298-367 | the survivor index and the search compute one link per added symbol with an original |
| SymbolMoves.CopiesExactly | src/charlie_work/ast_equivalence_gate.py:304-316 | an addition is a copy exactly when its bare name survives in another file, and its original is one of those |
| MoveTexts.CopiesByText | src/charlie_work/ast_equivalence_gate.py:330-367 | the copies are, in head order, one for each added symbol whose bare name is still listed in another file; each names the first such original, both files and classes, and is equivalent exactly when the two dumps are equal |
| SymbolMoves.MovedNeverCopied | src/charlie_work/ast_equivalence_gate.py:308-312 | no symbol is the source of both a move and a copy |
| UsageEvents.UsageFromEvents | src/charlie_work/api_budget.py:183-250 | the event loop and the sum compute the last result, or else one row per message and every row without a message |
| UsageEvents.BestIsLargest | src/charlie_work/api_budget.py:192-198 | the row kept for a message is one of its lines, and none has more output |
| UsageEvents.UsageByLines | src/charlie_work/api_budget.py:183-250 | the usage is that of the last result that carries one and, only when there is none, the sum over the lines that count: those without a message, and of each message the first with the most output |
| UsageEvents.OrderIrrelevant | src/charlie_work/api_budget.py:192-205 | without a result, reordering the lines cannot change the usage when lines of one message agree on input and cached tokens |
| UsedCursor.WindowsAreUnique | src/charlie_work/api_budget.py:700-702 | the cursor never holds two marks for one (resource, reset) window |
| UsedCursor.CursorIsExact | src/charlie_work/api_budget.py:697-718 | after any samples a window is marked exactly when seen and within an hour of its resource's newest reset, and its mark is the largest used seen; so a pruned window never returns |
| UsedCursor.PointsTelescope | src/charlie_work/api_budget.py:700-709 | over any interleaving, the points counted for a window are its last retained used minus its first |
| UsedCursor.NeverOvercounts | src/charlie_work/api_budget.py:706-709 | a window is never charged more than its counter grew by, and exactly that while it is live |
| SpendLanes.RecordConserves | src/charlie_work/api_budget.py:751-769 | one entry per (capability, resource), and every total grows by exactly the recorded request |
| SpendLanes.EntriesAreTallies | src/charlie_work/api_budget.py:751-769 | a client's entries are exactly the tallies of its responses -- requests, points, unreadable counters -- one for each capability and resource seen |
| SpendLanes.LanesSumToObservedGrowth | src/charlie_work/github_transport/guarded.py:141-173 | under every interleaving of clients sharing the cursor, recorded, pending and taken points sum to the growth of the resource's windows, and requests to the responses |
| SpendLanes.RequestsByCapability | src/charlie_work/github_transport/guarded.py:141-173 | under the same interleavings, the requests recorded, pending and taken for a capability and a resource are the responses of that capability about that resource |
| RateWindows.BudgetIsNewest | src/charlie_work/api_budget.py:608-632 | after any headers, one window per resource seen, and one of its newest; unreadable headers erase nothing |
| RateWindows.BudgetInNumbers | src/charlie_work/api_budget.py:600-632 | the window kept for a resource was seen, has the largest reset of those seen and, among those, the least remaining |
| RateWindows.ArrivalOrderIrrelevant | src/charlie_work/api_budget.py:615-619 | order and repetition of responses cannot change any resource's reset and remaining |
| RateWindows.MergeIsJointObservation | src/charlie_work/github_transport/shared_budget.py:55-62 | merging two clients' budgets knows what one client would know from both clients' responses |
| RateWindows.MergeInNumbers | src/charlie_work/github_transport/shared_budget.py:55-62 | so does the window kept after merging two clients' budgets, over both clients' responses |
| SpendLedger.SettleSession | src/charlie_work/api_budget.py:336-365 | the scan and the new totals compute the settlement function; a known key is a no-op |
| SpendLedger.SessionsByFields | src/charlie_work/api_budget.py:336-347 | the ledger keeps exactly the first entry of every issue, start time and session id, in order |
| SpendLedger.LedgerIsAccurate | src/charlie_work/api_budget.py:122-132 | after any settlements keys are distinct, the lifetime is the sum over sessions and each day bucket the column-wise sum of that day's sessions |
| SpendLedger.TotalsByFields | src/charlie_work/api_budget.py:122-132 | the lifetime is what the kept sessions cost; a day is listed exactly when one of them starts on it, and holds their input, output, cached tokens and cost, field by field |
| SpendLedger.ReplayChangesNothing | src/charlie_work/api_budget.py:339-342 | settling a session again anywhere later in a run leaves the final ledger as it was |
| SpendLedger.OrderIrrelevant | src/charlie_work/api_budget.py:336-365 | runs over the same entries in any order end with the same lifetime and day buckets when equal keys mean equal entries |
| CheckSummary.SummarizeChecks | src/charlie_work/checks.py:116-204 | grouping and flag scanning file every required name, in order, under its worst run; no check list means all unavailable |
| CheckSummary.OneBucketEach | src/charlie_work/checks.py:137-204 | each required name is in exactly one bucket, the one of its worst run |
| CheckTexts.BucketsByText | src/charlie_work/checks.py:81-204 | which bucket holds a required name, by the states and buckets of its runs: failed if one failed, else infra-blocked, infra-failed, pending in that order if one is, passed if all passed or were skipped, missing if there is none |
| CheckSummary.ReadyMeansAllPassed | src/charlie_work/checks.py:42-51 | ready exactly when the passed names are the required names |
| CheckTexts.ReadyByText | src/charlie_work/checks.py:42-51 | ready exactly when every required name has a run and every run of it says success or pass, or skipped or neutral without being pending |
| CheckSummary.SummaryIgnoresOrder | src/charlie_work/checks.py:129-135 | only the set of check runs matters |
| CheckSummary.MoreRunsNeverHelp | src/charlie_work/checks.py:152-186 | more runs never improve the verdict of a name that already has a run |
| CheckReruns.ClassifyInfraFailures | src/charlie_work/checks.py:518-654 | the loops compute one pass of the counting state machine and the store it leaves: only the current head, nothing when nothing is required; rerun ids sorted |
| CheckReruns.ClassifyCheckFailures | src/charlie_work/checks.py:249-350 | the loops compute one pass of the set-based state machine and the store it leaves: only the current head, nothing when nothing is required; rerun and stored ids sorted |
| CheckRerunBounds.GrantsAreBounded | src/charlie_work/checks.py:586-641 | over any passes, whatever their heads and required checks, the attempts stored for the last head count exactly the grants since they were last forgotten (the name passed, nothing was required, or the head was new), never exceed the cap, and nothing is stored for another head |
| CheckRerunBounds.KeptExactly | src/charlie_work/checks.py:574-593 | a pass keeps the attempts stored for a name on its head, whatever they are, exactly when something is required and the name does not pass |
| CheckRerunBounds.RerunsPerRunId | src/charlie_work/checks.py:627-641 | after any history, over any stretch on one head in which something is required and no name sharing it passes, a run id is rerun at most cap more times per name sharing it |
| CheckRerunBounds.UnrequiredPassForgets | src/charlie_work/checks.py:574-575 | three passes on one head, the second with nothing required: with a cap of one a run is rerun twice and its check never passes |
| CheckRerunBounds.PassSettles | src/charlie_work/checks.py:603-641 | for every state and check list, repeated names included: a failing name is definitive exactly when no run id has as many attempts left as the pass judges it, and the reruns are exactly the run ids with an attempt left |
| CheckRerunBounds.NothingFailingIsLost | src/charlie_work/checks.py:603-641 | every failing name is definitive or all its run ids with an attempt left are rerun |
| RerunTexts.RerunsByText | src/charlie_work/checks.py:603-641 | for any stored attempts: a run id is rerun exactly when the pass records and a failing required name has a run of that id whose state and bucket say cancelled, infrastructure failure or timed out (failed, for code failures), with an attempt left on this head |
| RerunTexts.DefinitiveByText | src/charlie_work/checks.py:603-641 | a name required once is definitive exactly when it fails and nothing is recorded or none of those run ids has an attempt left |
| CheckRerunBounds.BothExactly | src/charlie_work/checks.py:603-641 | a failing name is both exactly when attempts are recorded, some run id has one left and none has as many left as the pass judges the name |
| CheckRerunBounds.ListedTwiceIsBoth | src/charlie_work/checks.py:603-641 | a required name listed twice, one failed run, one attempt left: one pass reruns it and reports it as definitive |
| CheckRerunBounds.ExclusiveExactly | src/charlie_work/checks.py:603-641 | "never both" holds of every state and check list exactly when no check is required twice or the cap allows no rerun |
| CheckRerunBounds.DefinitiveAfterCap | src/charlie_work/checks.py:627-636 | failing on one head with the same run ids in cap recorded passes, from any stored attempts, a name is definitive in the next |
| CheckRerunBounds.UnrecordedSpendsNothing | src/charlie_work/checks.py:621-625 | a pass that does not record spends no attempt, reruns nothing and reports every failing name |
| CheckRerunBounds.DebounceIsCapOne | src/charlie_work/checks.py:249-350 | one set-based code-failure pass is one counting pass with a cap of one |
| RerunTexts.DebouncesByText | src/charlie_work/checks.py:249-350 | the set-based pass reruns exactly the run ids of failed runs of a failing required name that were not tried for it on this head, when it records |
| RerunTexts.DebounceDefinitiveByText | src/charlie_work/checks.py:249-350 | and reports a name required once exactly when it fails and nothing is recorded or all those ids were tried |
| CheckRerunBounds.DebounceRunsAreCapOne | src/charlie_work/checks.py:249-350 | over any passes the set-based machine is the counting one with a cap of one: stores match, every next pass decides the same, and a run id is rerun equally often, so the bounds above hold of it |
| TimedOutChecks.TimedOutRuns | src/charlie_work/aggregate_job_heal.py:132-162 | the loops collect the workflow runs of the required checks whose latest check run was cancelled at its time limit |
| TimedOutChecks.HealsNewestOnly | src/charlie_work/reconcile.py:886-906 | a workflow run is up for healing exactly when it holds the newest run of a required check and that one timed out; a superseded run never is |
| TimedOutChecks.HealsByFields | src/charlie_work/aggregate_job_heal.py:132-162 | a workflow run is up for healing exactly when it holds the check run of highest id, the first among equals, of a required name, completed, cancelled and annotated with the time-limit message |
| AggregateHeal.Lane.Tick | src/charlie_work/aggregate_job_heal.py:304-364 | a due tick of a lane that is on (interval, required checks, merge queue, publishing client, no dry run) arms the next one, derives the timed-out runs of each pull request and judges each run once; any other tick changes nothing; the count returned is the accepted reruns |
| AggregateHeal.NewestIsSortedTail | src/charlie_work/aggregate_job_heal.py:224-226 | the ids kept by rank are the last 200 of the sorted list |
| AggregateHeal.MemoryIsFaithful | src/charlie_work/aggregate_job_heal.py:210-227 | pruning after every call keeps exactly the 200 largest ids ever charged, each with its true number of calls and whether it was accepted |
| AggregateHeal.AllowedExactly | src/charlie_work/aggregate_job_heal.py:172-178 | a call is allowed exactly when 200 larger ids were charged, or the run was never accepted and has calls left |
| HealRuns.HealIsBounded | src/charlie_work/aggregate_job_heal.py:327-364 | over any ticks, an id with fewer than 200 larger charged ids gets at most one accepted rerun, at most three charged calls, and no call after acceptance |
| HealRuns.TickAsksOnce | src/charlie_work/aggregate_job_heal.py:328-341 | one tick asks about a run at most once, however many pull requests show it |
| HealClock.RunsByClock | src/charlie_work/aggregate_job_heal.py:310-327 | over any ticks the lane runs exactly at those that find it switched on and the interval set by the last tick that ran over |
| HealClock.AskedExactlyWedged | src/charlie_work/aggregate_job_heal.py:328-345 | a tick that runs asks about a workflow run exactly when some pull request of the queue shows it wedged |
| HealRuns.OneRerunExactly | src/charlie_work/aggregate_job_heal.py:304-364 | over every sequence of ticks that shows a given set of ids, whatever GitHub answers, the promise holds of a run exactly when fewer than 200 of those ids are larger |
| HealRuns.SecondRerun | src/charlie_work/aggregate_job_heal.py:210-227 | two ticks after which a run id has two accepted reruns |
| CapacityStarvation.Detector.Detect | src/charlie_work/capacity_starvation_escalation.py:209-302 | the loop computes the next sidecar and the events; disabled and dry-run passes change nothing |
| CapacityStarvation.StarvedMeans | src/charlie_work/capacity_starvation_escalation.py:83-116 | a repository is starved exactly when one of its targets is over capacity while the host has spare budget |
| StarvationNumbers.StarvedInNumbers | src/charlie_work/capacity_starvation_escalation.py:83-116 | in numbers: the budget exceeds the sum of all running counts, and some target of the repository demands more than its capacity |
| CapacityStarvation.EscalationExact | src/charlie_work/capacity_starvation_escalation.py:227-261 | over any run of passes, a repository escalates exactly at the first overdue pass after the first of its streak |
| CapacityStarvation.AtMostOncePerStreak | src/charlie_work/capacity_starvation_escalation.py:195-198 | no two passes of one unbroken streak escalate |
| CapacityStarvation.NeverEarly | src/charlie_work/capacity_starvation_escalation.py:165-172 | never on the first pass of a streak, and early by less than a second at most |
| CapacityStarvation.SustainedEscalates | src/charlie_work/capacity_starvation_escalation.py:186-198 | some pass of a streak escalates exactly when one after its first is overdue |
| CapacityStarvation.OneEventPerListing | src/charlie_work/capacity_starvation_escalation.py:227-296 | an escalating repository raises one event per target of the plan over its capacity, so exactly one just when exactly one target is |
| StarvationNumbers.EventsInNumbers | src/charlie_work/capacity_starvation_escalation.py:227-296 | for a repository starved since a pass, the events are those of its targets over capacity, with their numbers, the spare budget, the second the starvation began and the seconds since; they come at the first pass that many minutes later and at no other |
| StarvationNumbers.NoEventUnlessShort | src/charlie_work/capacity_starvation_escalation.py:227-262 | a repository that is not starved in a pass raises nothing in it |
| StarvationNumbers.StarvedInOrder | src/charlie_work/capacity_starvation_escalation.py:104-116 | starved targets come by repository, and those of one repository in the order of the plan |
| StarvationNumbers.PassInOrder | src/charlie_work/capacity_starvation_escalation.py:209-296 | a pass raises its events by repository |
| CapacityStarvation.TwiceRaisesTwo | src/charlie_work/capacity_starvation_escalation.py:227-296 | a plan with two such targets raises two events in the pass that fires |

## Left out

- I/O, GitHub calls, locks, persistence, logging and clocks: blocker declarations, open-ness, check runs, rerun answers, headers and times are parameters; no crash between a rerun call and its state write.
- Negative `limit` and cycle limits in `find_blocker_cycles`: the limits are optional naturals.
- Blockers in other repositories: only local numbers are vertices or roots; `CrossRepoBlocker` is not part of this model.
- The classifier's labels are sets and its mention coverage a map from issues to pull requests; the scan of merged pull requests behind that map is not modelled.
- The `ast` module and the regular-expression engine: dumps come from a term type with a printer, and the few patterns are written out as matchers, with ASCII letters, digits and underscore for `\w` and the six ASCII space characters for `\s`.
- ShimSource.GenerateShimSource: names are printed between single quotes, which is their `repr` when they are identifiers.
- ShimRoundTrip.ParseOfGenerated: for names that are identifiers, destinations without braces and a facade path without a line break; a brace in a path would unbalance the parser's count. `repr` is written out for ASCII, and takes every character beyond it as printable.
- `_strip_fenced_code_blocks` also removes inline runs of three or more backticks, and the mention scanner has prose heuristics; neither is modelled.
- Dollars are integers in units of 1e-8, so float rounding is not modelled; the UTC day of a timestamp is a parameter.
- Header values arrive as integers or absent; case folding of header names, check states and buckets is done by the caller.
- CheckReruns.ClassifyInfraFailures: malformed stored attempts are not modelled.
- AggregateHeal.Lane.Tick: starts from the check runs of the queue's pull requests; which pull requests are in the queue, and malformed stored entries, are not modelled.
- `find_blocker_cycles` cuts to `limit` in component order before its final sort (ReportContents.ReportIsFirst); with a step budget, what a component contributes is an initial segment of its cycles whose length is not stated in closed form.
- SymbolMoves.DeriveMoved: takes each side of the diff as one list of symbols in insertion order instead of a dictionary of dictionaries.
- UsageEvents.UsageFromEvents: token fields arrive as natural numbers, cache-creation tokens already added to input.
- `budget_status`, `cost_usd`, `github_headroom` and `is_infra_blocked_check` are not modelled.
