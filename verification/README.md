# Verified model of SingleCLI's core protocols

This project models the parts of SingleCLI whose correctness is not visible from any one
function, and proves what they promise. One Dafny module stands for one source file or one
protocol:

| module | models |
|---|---|
| `Text` | substring search, trimming, splitting and decimal printing as the Rust sources use them |
| `SecretSpans`, `SecretForms` | the four secret detectors and the greedy choice of disjoint spans; what they find, in terms of the text alone |
| `AliasTokens` | the alias printer, the finder in `resolve` and the separate parser in `take_alias_value` |
| `RedactStore`, `RedactRuns` | the expiring alias store, and what holds over whole runs of its calls |
| `ProbeGate` | the Mutex/Condvar semaphore around child probes, as interleaved steps |
| `AcpStreams` | streaming threads that share a high-water mark over an append-only event log |
| `AcpLog`, `JsonText` | what the ACP bridge writes and logs, in bytes of UTF-8, and when a log slice panics |
| `AcpPrompts` | what the bridge takes a prompt for: a slash command, a status query, or a goal |
| `AcpTurns`, `AcpReplies`, `AcpOutcomes`, `AcpDialogue` | JSON-RPC requests, answers and lost turns; the routing of replies to waiting turns; what requests and replies bring about; runs of a blocked goal |
| `Fallback` | fallback chains and walks over them |
| `Permissions`, `Preferences`, `ApprovalHook` | static rules, learned decisions, approvals, and the pre-tool-use hook run against them |
| `PendingMerge` | merges awaiting a human, resolved by interleaved handlers |
| `GraphTask`, `GraphRoundTrip` | the quote-aware `--task` syntax, and exactly which nodes survive printing and parsing |
| `PoolKeys` | fresh key ids and account names |
| `BackupPaths`, `BackupRestore`, `BackupReport`, `BackupLoss`, `BackupOverlay`, `BackupExport` | archive names, restoring any archive, what an import reports and what it can lose, and export followed by import |
| `Runs`, `Sets` | states joined by steps, shared by the step systems; sizes of finite sets |

Objects that the source updates in place (the alias store, the session's event mark, the
registries, the tables, the disk, the archive builder) are classes whose methods are proved
against functions on values; loops are loops. Interleaved code is a step system: a `System` value, a
`Step` for each statement that touches shared state, and theorems over every run.

## Where the code and its documentation differ

- Fallback walks. The comments at crates/single-core/src/fallback.rs:59-64 and
  crates/single-runtime/src/task.rs:1242-1248 say following a chain cannot loop. That holds for one call,
  not for a walk: `[a, b, a, c]` cycles (`Fallback.RepeatedEntryLoops`).
  `Fallback.WalksEndExactlyWithoutTraps` says exactly which registries are safe.
- Approvals. `resolve` promises an error once a row is resolved
  (crates/single-core/src/preferences.rs:197-198), but its check and its UPDATE are separate
  statements. `ApprovalHook.NoSecondAnswerExactly` says exactly when the promise holds, and
  `ApprovalHook.DecisionFinalExactly` exactly when the decision at least is final.
- Merges. A duplicate confirm cannot flip a rejected row, as promised, but the handler at
  crates/single-runtime/src/handlers.rs:1927-1934 looks at its own argument and not at the row it was
  returned, so it merges the branch anyway (`PendingMerge.MergesRejectedRowExactly`).
- Restarts after "raise". The comment at crates/single-cli/src/acp.rs:352-363 says the shared mark is
  never read back; a restarted call reads it. `AcpStreams.RestartExactly` says exactly when
  that loses or repeats an event.
- Backups. "Every overwritten file is kept" needs backup names that are free, and those carry
  the time to the second only. `BackupLoss.ImportLosesNothingExactly` says exactly when an
  import loses nothing; `BackupLoss.SameSecondLosesBackup` is an import that does.
- Unanswered prompts. JSON-RPC owes every request with an id an answer. The bridge logs what it
  reads and sends first, cut at a byte index (crates/single-cli/src/acp.rs:74, 271, 721); a cut
  inside a character panics. A turn then dies without answering, and the stdin loop takes
  every turn with it. `AcpTurns.LostExactly` says exactly which requests are lost so, or because
  stdin is closed; `AcpTurns.NoticeLosesPrompt` is a run with ASCII input only. A turn that dies
  sending its permission request also leaves its pending entry behind:
  `AcpReplies.EntryLeftExactly` says exactly when, `AcpReplies.RequestLeavesEntry` is such a run.
- Redaction of overlapping vendor secrets. Only the leading secret of a run is taken, so the
  front of one that begins earlier stays in the clear (`SecretSpans.WhollyInsideExactly`;
  `SecretSpans.HeadLeftInTheClear` is a text where it does).

## Assumptions

- Text is ASCII, one character a byte, except in `AcpLog`, `AcpTurns` and `AcpReplies`, where it is
  Unicode and sizes are those of UTF-8. The detectors take indices from a lower-cased copy and
  cast bytes to characters, so the source itself lines up only there.
- Encryption is a pair of functions with decrypt after encrypt the identity; its randomness
  is drawn from the counter value. The entropy test is an arbitrary predicate, clocks
  are parameters, and the alias counter wraps at 2^64 as the source's does.
- The event log returns exactly the entries with a higher id, in id order
  (crates/single-runtime/src/coordinator/events.rs:125-136), and its ids are positive.
- A secrets manifest is read back by the parser that the theorem is given.

## Model

| member | source | states |
|---|---|---|
| SecretSpans.FindSecretSpans | crates/single-core/src/redact.rs:268-315 | the chosen spans are non-empty, in bounds, sorted and pairwise disjoint; each is a candidate of some detector; every candidate of every detector overlaps a chosen span of its own or an earlier detector; every vendor secret ends exactly where a chosen span ends and every `sk-` one is covered whole; all loops end |
| SecretSpans.AddVendorSpans | crates/single-core/src/redact.rs:276-296 | one vendor's pass, which searches on after the prefix and so skips self-overlapping occurrences, still leaves every occurrence whose run reaches the minimum length met by a span that ends where its run ends |
| SecretSpans.VendorSpans | crates/single-core/src/redact.rs:276-296 | after all prefixes, every vendor secret in the text, found by the search or not, ends where a chosen span ends; each span is a vendor secret |
| SecretSpans.VendorSecretsEndTogether | crates/single-core/src/redact.rs:290-292 | two vendor secrets that overlap end at the same place, so the greedy choice cannot cut a later one short |
| SecretSpans.FirstVendorCovered | crates/single-core/src/redact.rs:276-296 | every `sk-` secret lies inside a chosen span, because its prefix is tried first |
| SecretSpans.WhollyInsideExactly | crates/single-core/src/redact.rs:276-296 | a vendor secret lies wholly inside the chosen spans if and only if the leading secret of its run (the leftmost of the first vendor in the table that has one there) begins at or before it; otherwise exactly the part in front of that one is left in the clear, whatever the other detectors do |
| SecretSpans.HeadLeftInTheClear | crates/single-core/src/redact.rs:276-296 | an input: for `gho_`, ten letters, `-sk-` and 24 letters, a `gho_` secret of 42 characters, every choice of spans leaves the first fifteen in the clear and covers the rest |
| SecretSpans.EndsAtRunEnd | crates/single-core/src/redact.rs:317-410 | no detector's candidate ends inside a run of token characters |
| SecretSpans.UnderVendorExactly | crates/single-core/src/redact.rs:268-315 | any detector's candidate that some vendor secret of the text overlaps is chosen as it is if and only if it is itself the leading secret of a run |
| SecretSpans.AloneIsChosen | crates/single-core/src/redact.rs:298-311 | an assignment value or high-entropy word that no other candidate of any detector overlaps is chosen as it is |
| SecretSpans.PushIfFree | crates/single-core/src/redact.rs:269-274 | the spans stay pairwise apart and the new one meets one of them, itself if it was free |
| SecretSpans.FindJwtShapes | crates/single-core/src/redact.rs:331-367 | the returned spans are exactly a leftmost choice of JWT shapes: each is one, they are in order and apart, and every shape in the text starts inside one of them |
| SecretSpans.FindAssignmentValues | crates/single-core/src/redact.rs:369-397 | contains every assignment value of at least eight characters after any occurrence of a label, although the search skips the label's own length |
| SecretSpans.LabelsAreBorderless | crates/single-core/src/redact.rs:372-394 | no label has a border, so no occurrence is skipped by searching on after the previous one |
| SecretSpans.WhitespaceTokens | crates/single-core/src/redact.rs:468-484 | exactly the maximal runs without white space |
| SecretSpans.FindHighEntropyTokens | crates/single-core/src/redact.rs:412-454 | exactly the words that pass every guard and the entropy test |
| SecretSpans.SortSorts | crates/single-core/src/redact.rs:313-313 | sorting by start keeps the spans, as a multiset, and orders them |
| SecretSpans.SecretSpansPartition | crates/single-core/src/redact.rs:268-315 | the result cuts the text into gaps and spans that follow one another without overlap |
| SecretForms.AssignmentsExactly | crates/single-core/src/redact.rs:369-410 | a span is an assignment value if and only if the text reads, piece by piece: anything, one of the eight labels in any case, white space, `:` or `=`, white space, an opening quote or none, the span of eight or more characters that are neither white space nor quotes, and then white space, a quote or the end |
| SecretForms.VendorsExactly | crates/single-core/src/redact.rs:276-329 | a span is a secret of the m-th vendor if and only if it is a whole rest of a run of token characters, begins with that prefix and has at least that length, prefixes and lengths written out in their order |
| SecretForms.JwtsExactly | crates/single-core/src/redact.rs:331-367 | a span is a JWT shape if and only if it is three segments of ten or more token characters joined by dots, and the last ends with its run |
| SecretForms.UuidsExactly | crates/single-core/src/redact.rs:486-490 | the words excluded as UUIDs are exactly five runs of hexadecimal digits of lengths 8, 4, 4, 4 and 12 joined by dashes |
| SecretForms.FilenamesExactly | crates/single-core/src/redact.rs:456-466 | the words excluded as file names are exactly a non-empty stem, a dot and one to five small letters |
| SecretForms.WordsExactly | crates/single-core/src/redact.rs:412-494 | a span is a suspect word if and only if it is a maximal run without white space, of 20 or more characters with a digit and a letter, that looks random and is no UUID, hash, path, file name or piece of code |
| SecretForms.DetectedExactly | crates/single-core/src/redact.rs:268-410 | what the four detectors take is exactly what has one of these four forms |
| SecretForms.SecretsAreFound | crates/single-core/src/redact.rs:268-315 | of the spans chosen for any text, in terms of the text alone: each has one of the four forms; every vendor secret ends with one; every JWT shape begins inside one for which a vendor secret or JWT shape was chosen; every assigned value meets one of these or an assigned value; every suspect word meets some chosen span |
| AliasTokens.FindAliasTokens | crates/single-core/src/redact.rs:239-261 | the loop returns the tokens of the specification, left to right |
| AliasTokens.TokensAreSortedPrintedForms | crates/single-core/src/redact.rs:239-261 | ranges are sorted, disjoint and in bounds, and each is the printed form of the session it reports and some decimal number |
| AliasTokens.OpenIsBorderless | crates/single-core/src/redact.rs:243-243 | no proper suffix of the fixed prefix is also a prefix of it, so no token can straddle the end of a gap |
| AliasTokens.TokensAfterGap | crates/single-core/src/redact.rs:239-261 | after a gap without the prefix, the finder's next token is exactly the alias printed there, and it goes on behind it |
| AliasTokens.CandidateDecides | crates/single-core/src/redact.rs:239-261 | from any place in any text: the part from the next `{{REDACTED:` to the next `}}` behind it is a token, under the session it prints, if it is the alias of a session and digits, and is left out otherwise; the search goes on behind it |
| AliasTokens.NoCandidateLeft | crates/single-core/src/redact.rs:243-258 | where no such part follows, nothing more is found |
| AliasTokens.TakeKeyOfPrinted | crates/single-core/src/redact.rs:209-219 | the one-token parser inverts the printer |
| AliasTokens.TakeKeyOnlyOfPrinted | crates/single-core/src/redact.rs:209-219 | and accepts nothing but, up to outer white space, a printed alias of the name it reports |
| AliasTokens.AliasInjective | crates/single-core/src/redact.rs:152-152 | different session or number, different token |
| AliasTokens.FinderAgreesWithTake | crates/single-core/src/redact.rs:209-261 | every token found in a text is accepted by the one-token parser with the same session and the same table key |
| AliasTokens.TakeAgreesWithFinder | crates/single-core/src/redact.rs:209-261 | conversely a trimmed token accepted by the one-token parser is found whole and under the same session if and only if the session holds no closing braces |
| RedactStore.RedactStore.ScanAndReplace | crates/single-core/src/redact.rs:127-162 | on the live store: the text is rewritten, the rows inserted, the aliases reported and the counter advanced as specified, over spans that meet the whole promise of the span finder |
| RedactStore.RedactStore.Resolve | crates/single-core/src/redact.rs:170-197 | result and remaining rows are those of the specification: untouched when the text has no token, else swept first, and no output on the first failing token |
| RedactStore.RedactStore.TakeAliasValue | crates/single-core/src/redact.rs:209-235 | a malformed token is refused before anything is swept; else the row is read after the sweep and deleted only if it decrypts |
| RedactStore.RedactStore.SweepExpired | crates/single-core/src/redact.rs:201-203 | removes exactly the rows with `expires_at` before now and returns how many |
| RedactRuns.KeysRepeatOnlyAfterWrap | crates/single-core/src/redact.rs:110-152 | two counter values give one key only if they differ by a multiple of 2^64 and the sessions agree |
| RedactRuns.OneCall | crates/single-core/src/redact.rs:127-235 | any call leaves an issued alias's row as it was, or, exactly when it takes that token or sweeps after its expiry, deletes it |
| RedactRuns.AliasLifeCycle | crates/single-core/src/redact.rs:110-235 | over any run shorter than one wrap of the counter, an issued alias's row is there unchanged exactly if no call of the run removed it |
| RedactRuns.RevealAllFailsExactly | crates/single-core/src/redact.rs:178-194 | looking up a list of tokens fails exactly if one of them fails |
| RedactRuns.ResolveFailsExactly | crates/single-core/src/redact.rs:170-197 | `resolve` errors exactly if some token of the text has no plaintext in the swept table, and otherwise puts a plaintext in the place of every token |
| RedactRuns.RevealedExactlyWhileAlive | crates/single-core/src/redact.rs:110-235 | after any run, an alias resolves, and then to the secret it was issued for, if and only if its expiry is not past and no call took it or swept it |
| RedactRuns.TakenIsGone | crates/single-core/src/redact.rs:209-235 | after a successful take, every later `resolve` of a text with that token fails, whatever runs in between |
| RedactRuns.TakenExactlyWhileAlive | crates/single-core/src/redact.rs:209-235 | after any run, taking the token of an issued alias succeeds, and then returns the secret it was issued for, if and only if its expiry is not past and no call took it or swept it |
| RedactRuns.TakeDropsExactly | crates/single-core/src/redact.rs:209-235 | a malformed token changes no row; any other take drops exactly the expired rows, and one that returns a secret exactly that secret's row as well |
| RedactRuns.MalformedExactly | crates/single-core/src/redact.rs:209-219 | a token is refused as malformed if and only if, outer white space aside, it is `{{REDACTED:`, a non-empty session, a colon, digits and `}}` for no session and digits |
| RedactRuns.RewrittenTokens | crates/single-core/src/redact.rs:127-162 | the finder, run over a rewritten text, finds exactly the aliases the scan printed, and splicing the secrets back gives the original |
| RedactRuns.ScannedStaysRevealed | crates/single-core/src/redact.rs:127-197 | each alias of a scan keeps revealing its slice of the text over every run that neither expires nor takes it |
| RedactRuns.ScanThenTake | crates/single-core/src/redact.rs:127-235 | taking an alias of a scan, outer white space allowed, after any run that neither expires nor takes it, returns the very slice of the text that it stands for |
| RedactRuns.ReportedAsStored | crates/single-core/src/redact.rs:127-162 | a scan reports for each span the printed alias, the session, the time of the call and an expiry three hours later, and the table has a row under that alias with those times |
| RedactRuns.ScanThenResolve | crates/single-core/src/redact.rs:127-197 | `resolve` of `scan_and_replace`'s output is the original text, after any other scans, resolves, sweeps and takes of other aliases, up to and including the moment of expiry |
| ProbeGate.StepKeepsInv | crates/single-agent-sdk/src/discover.rs:98-129 | every step of every thread, spurious wakeups, barging and the gap between unlock and notify included, keeps mutual exclusion, the permit count and the no-lost-wakeup bound |
| ProbeGate.EveryStateSafe | crates/single-agent-sdk/src/discover.rs:98-129 | hence in every state of every interleaving the count is the number of permit holders, is at most four and never underflows |
| ProbeGate.AtMostFourChildren | crates/single-agent-sdk/src/discover.rs:152-187 | no more than four probes are at work at once |
| ProbeGate.SleeperWillBeServed | crates/single-agent-sdk/src/discover.rs:111-129 | whenever a thread sleeps while a slot is free, a notification is still to be sent or a woken thread has yet to recheck |
| ProbeGate.QuietGateHasNoIdleSleepers | crates/single-agent-sdk/src/discover.rs:111-129 | once nobody is between two rest points, threads sleep only while all four permits are out |
| ProbeGate.NobodyElseIsStuck | crates/single-agent-sdk/src/discover.rs:111-129 | a thread between two rest points can always move, or waits for a lock whose holder can free it in one step |
| ProbeGate.StartsAlone | crates/single-agent-sdk/src/discover.rs:111-166 | with the lock free and fewer than four permits out, a thread comes from outside to a live child by four steps of its own |
| ProbeGate.WaitsWhenFull | crates/single-agent-sdk/src/discover.rs:111-119 | with four permits out it goes to sleep and lets go of the lock |
| ProbeGate.HandsOver | crates/single-agent-sdk/src/discover.rs:111-187 | when one of four children ends, its thread frees the slot, wakes a sleeper, and the sleeper starts its own child: four again |
| AcpStreams.TranslateBatch | crates/single-cli/src/acp.rs:381-389 | one answer of the event log: shows exactly the events of the goal or of no goal, in order, and moves the cursor past all of them |
| AcpStreams.MarkIsHighWater | crates/single-cli/src/acp.rs:390-392 | over any run without a load's assignment the shared mark never falls and is the highest of its old value and the cursors pushed meanwhile |
| AcpStreams.MarkFallsOnlyByLoads | crates/single-cli/src/acp.rs:226-235 | between two states of a run with a lower mark at the later one, a load assigned an id below the mark of its moment |
| AcpStreams.AcpSession.LoadMark | crates/single-cli/src/acp.rs:226-235 | a load sets the mark to the highest replayed id, lower than before or not |
| AcpStreams.PollRound | crates/single-cli/src/acp.rs:364-392 | from any state, a call about to poll can go through one poll by steps of its own, and has then shown what it owed up to the end of the log and raised the mark to its cursor |
| AcpStreams.AfterChecking | crates/single-cli/src/acp.rs:393-420 | from there it can poll again, start over with its cursor at the mark and what it has shown behind it, or return |
| AcpStreams.LoadAssignsItsReplay | crates/single-cli/src/acp.rs:214-235 | in every run, whatever happens between its steps, a load sets the mark to what `LoadMark` makes of the log as it was when the load fetched it: its last id, or, of an empty log, nothing |
| AcpStreams.AcpSession.Poll | crates/single-cli/src/acp.rs:381-392 | one answer of the event log on the live session: shows its relevant events, and the shared mark becomes the larger of itself and the new cursor |
| AcpStreams.StepsArePoll | crates/single-cli/src/acp.rs:381-392 | in every run, interleaved as it may be, the steps from a fetch to the end of its batch leave the stream with the cursor and the shown events that `Poll` specifies |
| AcpStreams.StepKeepsInv | crates/single-cli/src/acp.rs:342-392 | every step of every stream, load and log append keeps each call exact and the log ordered |
| AcpStreams.EveryCallExact | crates/single-cli/src/acp.rs:364-392 | in every interleaving, what one `stream_goal` call has shown is exactly the log between its start and its cursor that names its goal or no goal |
| AcpStreams.OwedIsOrdered | crates/single-cli/src/acp.rs:381-389 | such a list holds exactly those events, in increasing id order, so each once |
| AcpStreams.LoneTurnExact | crates/single-cli/src/acp.rs:364-539 | with a single stream on the session and no load, the whole turn is exactly-once over any number of raised restarts |
| AcpStreams.RestartExactly | crates/single-cli/src/acp.rs:364-539 | in every run, a turn that was exact when a raise restarted it is exact again, at any later state of that call whose cursor has passed the old one, if and only if no event it owed lay between its own cursor and the shared mark it restarted from |
| AcpStreams.RestartCanLoseAnEvent | crates/single-cli/src/acp.rs:538-539 | a reachable run of two goals on one session in which a raised restart never shows an event of its own goal |
| AcpLog.CutExactly | crates/single-cli/src/acp.rs:719-721 | a log slice panics if and only if some character begins before its last byte and ends after it |
| AcpLog.SizeIsUtf8 | crates/single-cli/src/acp.rs:719-721 | a character counts as many bytes as its UTF-8 form, by section 3 of RFC 3629, has: those bytes read back as the character, and only the first looks like a first one |
| JsonText.StringReadsBack | crates/single-cli/src/acp.rs:691-727 | any string the bridge writes into a message, quotes, backslashes and control characters included, is read back as that string by section 7 of RFC 8259 |
| AcpLog.NoticeCutExactly | crates/single-cli/src/acp.rs:298-298 | under an ASCII session id that needs no escaping, the log slice of the planning notice panics if and only if the id is 193 or 194 characters long |
| AcpLog.PermissionCutExactly | crates/single-cli/src/acp.rs:475-491 | the log slice of the first permission request, under a session id with a single wide character, panics if and only if that character straddles byte 53 of the id |
| AcpTurns.DispatchAnswers | crates/single-cli/src/acp.rs:98-164 | when nothing it logs is cut, `dispatch` answers a request under its own id, unless it has none, is a cancellation, or starts a turn |
| AcpTurns.DispatchCounts | crates/single-cli/src/acp.rs:98-164 | so the new request gets one answer, or one live turn, or neither, and no other request gets an answer or a live turn |
| AcpTurns.StepKeepsAnswers | crates/single-cli/src/acp.rs:56-337 | every step of the stdin loop and of every worker, those that panic and end included, keeps the balance of requests, answers, live turns and losses |
| AcpTurns.AnsweredOnceLiveOrLost | crates/single-cli/src/acp.rs:98-337 | in every run each request with an id, other than the two cancellations, has exactly one answer, or one live turn and no answer, or a thread that ended without answering; no other request is answered; each answer carries its request's id |
| AcpTurns.StepLosesExactly | crates/single-cli/src/acp.rs:270-337 | one step loses a request if and only if its own thread logs a text cut inside a character, up to its answer, or the process ends under its live turn |
| AcpTurns.LostExactly | crates/single-cli/src/acp.rs:56-337 | over every run, an owed request goes unanswered by a dead thread if and only if some step lost it in one of those ways |
| AcpTurns.DownExactly | crates/single-cli/src/acp.rs:70-95 | in every run the process has ended if and only if some step closed stdin or had the stdin loop log a text that is cut, and that step was the last |
| AcpTurns.NoticeLosesPrompt | crates/single-cli/src/acp.rs:199-298 | a reachable run: a session id of 193 or 194 ASCII characters that begins with `sess_` is loaded and prompted with a goal (no slash command, no status query), and the turn dies on its notice, leaving the prompt unanswered |
| AcpTurns.EnteringDiesExactly | crates/single-cli/src/acp.rs:270-271 | a turn whose prompt is ASCII text around one wide character dies on entering if and only if that character straddles byte 60, and then its prompt is lost |
| AcpReplies.TakenIsSpent | crates/single-cli/src/acp.rs:80-88 | a server id whose entry the stdin loop has taken can never be taken again |
| AcpReplies.StepKeepsRouting | crates/single-cli/src/acp.rs:80-92 | every step, deaths included, keeps: ids drawn once, entries owned by a waiter or left by one that died, deliveries addressed to the worker that drew the id, and none repeated |
| AcpReplies.RepliesReachTheirWaiter | crates/single-cli/src/acp.rs:80-92 | in every run a client reply is delivered only to the worker that drew the id it names; no reply and no id is delivered twice; what a waiter holds was so delivered |
| AcpReplies.OnlyTheDeadLeaveEntries | crates/single-cli/src/acp.rs:470-506 | in every run a live worker outside `handle_blocked` has no entry pending, and an entry whose worker is gone was left by a worker that died on it |
| AcpReplies.StuckExactly | crates/single-cli/src/acp.rs:470-491 | in every run a worker is recorded as dead on an id if and only if it died sending the request for that id, cut inside a character |
| AcpReplies.EntryLeftExactly | crates/single-cli/src/acp.rs:470-506 | in every run, while the process is up and ids are distinct: a worker is gone and its entry for an id still pending if and only if it died sending the request for that id and no client reply named the id while the entry was there |
| AcpReplies.RequestLeavesEntry | crates/single-cli/src/acp.rs:470-491 | a reachable run: under a session id with one wide character around byte 53, a goal blocks, the request for permission is cut, the worker is gone, its entry pending and its prompt lost |
| AcpOutcomes.DecidesAsToldExactly | crates/single-cli/src/acp.rs:470-539 | in every run, a worker that drew an id for a blocked goal and comes to decide streams on if and only if a reply that chose `raise` was delivered to it under that id; told anything else, or nothing in time, it ends and its prompt gets its one answer |
| AcpOutcomes.ReplyArrives | crates/single-cli/src/acp.rs:80-92 | in every run, a client reply that names an id while its entry is there is the next one sent on a channel, and is delivered to the worker of that entry if that still waits |
| AcpOutcomes.ReplyDecides | crates/single-cli/src/acp.rs:80-539 | both together, from the client's reply to the decision it brings about, whatever other threads do in between |
| AcpOutcomes.SessionsExactly | crates/single-cli/src/acp.rs:98-262 | in every run the known sessions are exactly those that earlier `session/new` and `session/load` requests opened |
| AcpOutcomes.ReceivedExactly | crates/single-cli/src/acp.rs:98-164 | in every run, what a request gets at once: one answer under its id, an error exactly for an unknown method, a failed `session/new` or a prompt for a session nothing opened; or a turn, for a prompt with text; a re-attachment, for a load with an active goal |
| AcpOutcomes.TurnIsAnswered | crates/single-cli/src/acp.rs:270-337 | a turn that is answered before it streams, or whose stream ends, ends with that answer under its prompt's id |
| AcpOutcomes.CommandsExactly | crates/single-cli/src/acp.rs:272-273 | the slash commands are exactly the texts that begin, white space aside, with a slash |
| AcpOutcomes.CommandNeverPlans | crates/single-cli/src/acp.rs:270-281 | in every run the turn of a slash command never sends a planning notice and never streams |
| AcpDialogue.RepliedRun | crates/single-cli/src/acp.rs:56-539 | a reachable run for every reply: a goal blocks, the client is asked and replies; with `raise` it streams on, with any other or no choice its turn ends and its prompt is answered, and nothing is left pending |
| AcpDialogue.SilentRun | crates/single-cli/src/acp.rs:56-539 | a reachable run: the client says nothing until the time is up, the turn ends and answers, and closing stdin then loses nothing |
| AcpDialogue.CutAnswerIsLost | crates/single-cli/src/acp.rs:270-337 | a worker that ends with its answer loses it if and only if the text of that answer has a character across byte 300; it is gone either way |
| Fallback.Registry.Set | crates/single-core/src/fallback.rs:39-46 | refuses short chains unchanged; otherwise the chains with the same head go and the new one comes last; chains of length two and more with distinct heads stay so |
| Fallback.Registry.Remove | crates/single-core/src/fallback.rs:48-57 | removes exactly the chains with that head and tells whether there was one; the registry stays well-formed |
| Fallback.Registry.NextAfter | crates/single-core/src/fallback.rs:65-73 | the nested search returns the entry one step after the first position in the first chain that holds the current one |
| Fallback.WithoutKeepsHeads | crates/single-core/src/fallback.rs:43-45 | removing chains keeps heads distinct |
| Fallback.WithoutExactly | crates/single-core/src/fallback.rs:39-57 | setting or removing keeps exactly the chains with another head, each in its place |
| Fallback.TrapNeverEnds | crates/single-core/src/fallback.rs:59-73 | a stretch of one chain that returns to its start and is never left makes the walk go on for ever |
| Fallback.WalkEnds | crates/single-core/src/fallback.rs:65-73 | without such a stretch the walk ends: each hop goes to an earlier chain, an earlier stretch of the chain, or further along the stretch |
| Fallback.WalksEndExactlyWithoutTraps | crates/single-core/src/fallback.rs:59-73 | every walk over a registry ends if and only if no chain has such a stretch |
| Fallback.VisitedOnce | crates/single-core/src/fallback.rs:65-73 | a walk that ends visits no entry twice |
| Fallback.FewHops | crates/single-core/src/fallback.rs:65-73 | and makes fewer hops than there are entries |
| Fallback.NoRepeatsWalksEnd | crates/single-core/src/fallback.rs:59-73 | if no single chain repeats an entry, every walk ends even over overlapping chains, visits no entry twice and makes fewer hops than there are entries |
| Fallback.RepeatedEntryLoops | crates/single-core/src/fallback.rs:59-64 | after `set` of `[a, b, a, c]` the walk from `a` never ends and never tries `c`, against the comment on `next_after` |
| Fallback.SetThenWalk | crates/single-core/src/fallback.rs:39-73 | after `set` of a chain that repeats nothing and shares nothing with the others, the walk tries its entries in order and stops |
| Permissions.WinnerIsPicked | crates/single-core/src/permissions.rs:66-73 | the rule chosen applies, and every other applicable rule has a shorter pattern or an equally long one and stands earlier |
| Permissions.BestIsLongestPrefix | crates/single-core/src/permissions.rs:66-73 | filter-then-`max_by_key` equals walking the resource's prefixes from longest to shortest through a last-wins table |
| Permissions.EvaluateExactly | crates/single-core/src/permissions.rs:62-73 | `Allow`, `Deny` and `Ask` are decided exactly when the rule that wins (the longest pattern that is a prefix, the last of several) says so; `Ask` also when no pattern is a prefix |
| Permissions.EvaluateByTable | crates/single-core/src/permissions.rs:62-73 | the same in terms of the table that keeps the last rule of each pattern |
| Permissions.LookUpExactly | crates/single-core/src/preferences.rs:118-125 | a prefix walk finds an entry if and only if it belongs to a prefix than which no longer one is listed |
| Preferences.Store.LearnPattern | crates/single-core/src/preferences.rs:90-99 | one row per exact pattern, overwritten on re-learning, confidence clamped to [0, 1] |
| Preferences.Store.Lookup | crates/single-core/src/preferences.rs:118-125 | whatever order the rows come in, the result is the entry of the longest confidently known prefix |
| Preferences.Store.RequestApproval | crates/single-core/src/preferences.rs:160-168 | a new pending row under an id that is not in the table and, ids being handed out upwards, never was |
| Preferences.Store.ResolveApproval | crates/single-core/src/preferences.rs:199-211 | decides a pending row once, and learns exactly that resource if asked to; an unknown or decided id is an error that changes nothing |
| Preferences.Store.EvaluateAndLearn | crates/single-core/src/preferences.rs:227-241 | static rules first, then confident knowledge, both without touching the tables; only otherwise a new pending row |
| Preferences.AnyOrderFindsTheSame | crates/single-core/src/preferences.rs:101-125 | the lookup's result is the same for every order in which the rows can be listed |
| Preferences.ShorterConfidentPatternFound | crates/single-core/src/preferences.rs:116-125 | a confident pattern is found whenever no longer confident one applies: longer patterns below the floor never hide it |
| Preferences.JudgedExactly | crates/single-core/src/preferences.rs:227-241 | the verdict is `Permit` (`Refuse`) if and only if the winning rule says `Allow` (`Deny`), or it says neither and the longest pattern learned with confidence 0.8 or more does; otherwise exactly a pending row for this resource and context is added, and nothing else ever changes |
| Preferences.LearnedStays | crates/single-core/src/preferences.rs:90-99 | over any run, what is known about a pattern changes only by a call that learns that exact pattern |
| Preferences.RememberedDecisionHolds | crates/single-core/src/preferences.rs:194-241 | after `resolve(id, allow, remember = true)` the resource gets that decision in every later state in which the static rules say `Ask` and that exact pattern was not learned again |
| Preferences.ConfidencesInRange | crates/single-core/src/preferences.rs:90-98 | over any run the confidences on record stay in [0, 1], whatever callers pass |
| Preferences.FirstDecisionSticks | crates/single-core/src/preferences.rs:197-211 | when every `resolve` is one step, the row of a pending approval says the answer given in every later state, with the resource and context asked about, and every later `resolve` is refused; the resource is learned with confidence 1.0 exactly if asked |
| ApprovalHook.AllowedBecause | crates/single-core/src/preferences.rs:199-206 | a row recorded during the run and later allowed was checked while pending and updated to allow by one resolver in between |
| ApprovalHook.PermitsOnlyIf | crates/single-cli/src/main.rs:2950-3013 | over whole runs, a hook call lets its tool through only if the winning static rule allows it, or no rule decides and the longest learned pattern of confidence 0.8 or more allowed it at the lookup, or the very row this call recorded was afterwards resolved with allow |
| ApprovalHook.EndsExactly | crates/single-cli/src/main.rs:2950-3013 | over whole runs, a hook call has permitted (denied) if and only if the winning rule says so, or its own lookup found the longest confident pattern to say so, or a poll of its own found its row so decided, or, for denying, gone or still pending at the deadline |
| ApprovalHook.TaughtThenEnds | crates/single-cli/src/main.rs:2950-3013 | over whole runs, an `Allow` or `Deny` taught confidently, by a remembered answer or from elsewhere, ends a call that looks later, if no longer pattern is confidently known and nothing that applies is taught in between |
| ApprovalHook.RemembersExactly | crates/single-core/src/preferences.rs:199-211 | over whole runs, a `resolve` that writes its answer goes on to teach it for the row's resource, with confidence 1.0, if and only if it was asked to remember |
| ApprovalHook.DeletedRowDenies | crates/single-cli/src/main.rs:2990-3013 | over whole runs, once a call's row is deleted, its next poll denies, whatever is recorded or resolved in between |
| ApprovalHook.FailsClosed | crates/single-cli/src/main.rs:2989-3013 | a poll that finds the row missing, or still pending at the deadline, denies for good |
| ApprovalHook.DoneStays | crates/single-cli/src/main.rs:2950-2983 | a verdict once given is never changed |
| ApprovalHook.DecisionFinalExactly | crates/single-core/src/preferences.rs:199-206 | a decided row keeps its decision in every continuation if and only if no resolver still holds a check of it for the other decision |
| ApprovalHook.NoSecondAnswerExactly | crates/single-core/src/preferences.rs:194-206 | every continuation refuses every `resolve` of a decided row, as promised, if and only if no resolver still holds a check of it for either decision |
| ApprovalHook.OverlapFlipsDecision | crates/single-core/src/preferences.rs:199-206 | a reachable run of two overlapping resolvers in which the hook lets the call through and the row ends up denied |
| PendingMerge.PendingMerges.Request | crates/single-core/src/pending_merge.rs:82-89 | a new pending row under a fresh id |
| PendingMerge.PendingMerges.Resolve | crates/single-core/src/pending_merge.rs:124-131 | decides a pending row; for a decided one changes nothing and returns the first decision; an unknown id is an error |
| PendingMerge.PendingMerges.ListPending | crates/single-core/src/pending_merge.rs:114-118 | exactly the pending rows, each once, oldest first |
| PendingMerge.StepKeepsInv | crates/single-core/src/pending_merge.rs:108-131 | every statement of every handler keeps: a handler past its UPDATE sees a decided row, and what it was returned is what the row still says |
| PendingMerge.FirstDecisionStands | crates/single-core/src/pending_merge.rs:124-131 | in every interleaving a decided row, its time included, never changes again |
| PendingMerge.EveryCallerGetsTheFirst | crates/single-core/src/pending_merge.rs:124-131 | every handler is returned the decision, and its time, of the first handler to update the row |
| PendingMerge.MergesRejectedRowExactly | crates/single-runtime/src/handlers.rs:1927-1968 | the handler merges whenever its own call says allow; a merge falls on a rejected row if and only if the first update of that row rejected it, which is what the returned row says |
| PendingMerge.RejectedYetMerged | crates/single-runtime/src/handlers.rs:1927-1968 | a reachable run, one call after the other, in which a rejected merge is merged |
| GraphTask.SplitTopLevelCommas | crates/single-cli/src/main.rs:3217-3244 | the loop with `start`, `in_quotes` and `escaped` computes the specified split |
| GraphTask.SplitIsLossless | crates/single-cli/src/main.rs:3209-3244 | rejoining the fields with commas gives the text, and no field holds a comma outside quotes |
| GraphTask.SplitIsUnique | crates/single-cli/src/main.rs:3209-3244 | it is the only such split: any fields without a bare comma, of which only the last may end inside quotes, are recovered from their join |
| GraphTask.ParseGraphTask | crates/single-cli/src/main.rs:3246-3290 | the field loop yields the specified node or the first applicable error |
| GraphTask.LastValue | crates/single-cli/src/main.rs:3248-3260 | each key has the value of its last field, and keys come from fields only |
| GraphTask.ParsesExactly | crates/single-cli/src/main.rs:3246-3290 | a text parses if and only if every field has an equals sign, `id`, `agent` and `desc` occur, and the last `run_if`, if any, is one of the three names |
| GraphTask.ParsesTo | crates/single-cli/src/main.rs:3246-3290 | a text parses to a given node if and only if every field has an equals sign and what the fields say last, spaces and one layer of quotes off, is its id, agent, description, dependencies and condition; without a field for them, no dependencies and `always` |
| GraphTask.FailsWith | crates/single-cli/src/main.rs:3246-3290 | otherwise the error is exactly the first of: a field without equals sign, an unknown condition, no id, no agent, no description |
| GraphTask.SimpleDescriptionIsSealed | crates/single-cli/src/main.rs:3217-3244 | a description free of quotes and backslashes, with any commas and spaces, stays one field when quoted |
| GraphRoundTrip.ParsesBackExactly | crates/single-cli/src/main.rs:3217-3290 | for plain ids, agents and dependencies: parsing the printed form of a node returns the node if and only if its description, put in quotes, closes them and shows no comma outside |
| GraphTask.ParsePrinted | crates/single-cli/src/main.rs:3246-3290 | the half that every such node does parse back, each field read as it was printed |
| GraphTask.BackslashSwallowsTheRest | crates/single-cli/src/main.rs:3222-3231 | why a description may not end in a backslash: the closing quote is escaped and the dependencies and condition become part of the description's field |
| PoolKeys.Pigeonhole | crates/single-core/src/pool_keys.rs:84-96 | distinct numbers print distinct names, so a list holds at most as many consecutive ones as it is long |
| PoolKeys.NextFreeKeyId | crates/single-core/src/pool_keys.rs:84-96 | for any list, returns an id not in it after at most &#124;existing&#124; + 1 probes: `default` for none, else the least free number from &#124;existing&#124; + 1 on |
| PoolKeys.PoolKeyStore.Add | crates/single-core/src/pool_keys.rs:61-73 | a new row, or for a pair on record only its reference; its validation and disabled state stay |
| PoolKeys.PoolKeyStore.ProviderAddFree | crates/single-runtime/src/handlers.rs:1279-1302 | an explicit id rotates that one key; without one a fresh id is added |
| PoolKeys.FreshAddGrowsByOne | crates/single-core/src/pool_keys.rs:75-96 | one add without an id gives the platform one id more and leaves every row and every other platform as it was |
| PoolKeys.AddedKeyIsStored | crates/single-runtime/src/handlers.rs:1279-1302 | after a call, with or without an explicit id, its key is on record and the keychain holds the given secret under the name the row refers to; a key on record keeps its other columns, a new one begins unvalidated, no other row or secret changes |
| PoolKeys.LastSecretHolds | crates/single-runtime/src/handlers.rs:1279-1302 | over any row of calls for platforms without colons, a key keeps the secret it was given last until a call names it |
| PoolKeys.SuccessiveAdds | crates/single-core/src/pool_keys.rs:75-96 | k such adds grow the platform's key set by exactly k and overwrite nothing |
| PoolKeys.IdsInARow | crates/single-core/src/pool_keys.rs:75-96 | a platform's keys, added without ids, are `default`, `key2`, `key3` and so on |
| PoolKeys.SecretNamesDistinct | crates/single-core/src/pool_keys.rs:22-27 | the keychain names of the three registries never meet, and two pool keys share one only if a platform name holds a colon |
| PoolKeys.ColonsCollide | crates/single-core/src/pool_keys.rs:25-27 | platforms with colons do collide |
| PoolKeys.FreshAddKeepsSecrets | crates/single-runtime/src/handlers.rs:1279-1302 | a fresh add keeps every other key's secret in the keychain, when platform names hold no colon |
| PoolKeys.FreshAccountName | crates/single-cli/src/main.rs:3342-3357 | the suffix loop ends within &#124;existing&#124; + 1 probes with an unused name of safe characters: the slug, or the least free suffix from 2 |
| PoolKeys.SlugSpelled | crates/single-cli/src/main.rs:3342-3352 | ASCII letters, digits, `-`, `_` and `.` stay, every other character becomes a dash |
| PoolKeys.AccountsInARow | crates/single-cli/src/main.rs:3342-3357 | accounts of one name, made one after the other, are the slug, then the slug with `-2`, `-3` and so on |
| BackupPaths.SafeNamesStayInside | crates/single-core/src/backup.rs:201-206 | the safe names are exactly the relative ones without a `..` part, and each leads to a path at or below the root |
| BackupPaths.UnsafeNamesEscape | crates/single-core/src/backup.rs:196-206 | absolute names and names that begin with `..` do lead outside, and are refused |
| BackupPaths.NamesLeadBack | crates/single-core/src/backup.rs:124-140 | the name an exported file gets is safe and leads back to the very same path below any root |
| BackupRestore.Disk.RestoreOneFile | crates/single-core/src/backup.rs:208-216 | succeeds exactly if no file is in the way of a directory, no directory in the file's or backup's place and the name is not a directory's; on failure no file changes |
| BackupRestore.Disk.BackupFileBeforeWrite | crates/single-core/src/backup.rs:222-230 | a file about to be overwritten is copied to its time-stamped name first; a missing one needs nothing; a directory is an error |
| BackupRestore.Disk.Import | crates/single-core/src/backup.rs:150-193 | disk, keychain and report are those of restoring the entries one by one, up to a manifest that does not parse, which is an error; no file that is not strictly below the root differs |
| BackupRestore.RestoredBelow | crates/single-core/src/backup.rs:208-230 | restoring at a path below the root touches files only strictly below it |
| BackupReport.RestoresExactly | crates/single-core/src/backup.rs:208-230 | a file can be restored if and only if its name asks for no directory and is not the root, no file stands on its way, no directory at its place, and none where the copy of the file it replaces must go |
| BackupReport.RestoredExactly | crates/single-core/src/backup.rs:208-230 | on success the file has its bytes, the bytes it replaces are at the stamped name, and the directories on its way exist; on failure every file is as it was |
| BackupReport.ReportExactly | crates/single-core/src/backup.rs:150-193 | in every import the report has one item for each entry but readable manifests, in order, under its name, and it says success exactly if the name is safe and the file could be put there on the disk as it was then, or the run is dry |
| BackupReport.ReachedExactly | crates/single-core/src/backup.rs:150-193 | an import ends past its last entry, or in front of the first manifest that cannot be read, with everything before it done |
| BackupReport.StepKeepsSecrets | crates/single-core/src/backup.rs:150-193 | an import stops exactly at a manifest that cannot be read; a readable one adds its secrets unless the run is dry; a dry run touches neither files nor secrets |
| BackupReport.DottedNameIsFile | crates/single-core/src/backup.rs:150-206 | a plain name with `./` in front is safe and leads where the plain name does, but is never taken for the manifest |
| BackupRestore.ImportStaysBelowRoot | crates/single-core/src/backup.rs:150-206 | importing any archive, hostile ones and unreadable manifests included, changes no file that is not strictly below the root and makes directories only there or on the way; a dry run changes nothing at all |
| BackupOverlay.SameBackupSamePath | crates/single-core/src/backup.rs:226-227 | with time stamps of one length, a backup name tells whose backup it is |
| BackupOverlay.RestoringOverlays | crates/single-core/src/backup.rs:208-230 | restoring a plan of separate files that fits the disk: each arrives, old bytes are kept at the backup names, every other file is as it was, the only new directories are on the way |
| BackupOverlay.ImportingOverlays | crates/single-core/src/backup.rs:150-193 | an archive of such files imports to that overlay, with every entry reported restored |
| BackupLoss.OverwriteKeepsExactly | crates/single-core/src/backup.rs:222-230 | overwriting a file keeps its old bytes and every other file if and only if its backup name is free or holds the same bytes |
| BackupLoss.ImportLosesNothingExactly | crates/single-core/src/backup.rs:150-230 | an import of any archive loses nothing it overwrites if and only if every entry that overwrites a file finds its backup name free or holding the same bytes |
| BackupLoss.FittingImportKeepsAllBytes | crates/single-core/src/backup.rs:150-230 | then whatever bytes any file had, before the import or at any point of it, some file has at the end |
| BackupLoss.SameSecondLosesBackup | crates/single-core/src/backup.rs:222-230 | an import of two entries for one file in the same second reports both restored, and the bytes that were on the disk are gone |
| BackupLoss.SameSecondFitsExactly | crates/single-core/src/backup.rs:222-230 | that import meets the condition if and only if the first entry held those very bytes |
| BackupExport.TarBuilder.AddDirRecursive | crates/single-core/src/backup.rs:124-145 | appends the specified entries for a directory, in listing order |
| BackupExport.Export | crates/single-core/src/backup.rs:71-119 | the archive is the tree's entries in that order, and the secrets manifest last |
| BackupExport.ArchiveExactly | crates/single-core/src/backup.rs:46-48 | the archive holds a path with given contents if and only if the tree has that regular file there and nothing on the way to it is excluded |
| BackupExport.VisibleExactly | crates/single-core/src/backup.rs:44-48 | hidden from an export are exactly the paths at or below the socket and the log directory |
| BackupExport.ArchivedSeparate | crates/single-core/src/backup.rs:124-145 | no archived path equals another or lies inside it |
| BackupExport.ImportOfExport | crates/single-core/src/backup.rs:71-193 | importing a tree's export into another root overlays it with the tree's visible files, adds the exported secrets and reports every file restored |
| BackupExport.OverlayOfTree | crates/single-core/src/backup.rs:71-193 | for every path of the disk: where a visible regular file arrives it has equal bytes, and a file overwritten there is kept at a backup name; every other file, below the root or elsewhere, stays |
| BackupExport.EmptyRootGetsACopy | crates/single-core/src/backup.rs:71-193 | a root with nothing below it always fits, and afterwards holds exactly the tree's visible files |

## Left out

- Non-ASCII text, and Unicode white space in trimming: the source's own indices are only right for ASCII.
- age encryption, TOML and SQLite themselves; rows are maps and ciphers are functions. Failing keychains, I/O and permission errors are not modelled.
- Shannon entropy values: an arbitrary predicate on words stands for the test.
- Counter restarts across processes: alias numbers begin again at 1 in a new process, and the life-cycle theorems speak of one.
- SecretSpans.FindSecretSpans: claims for JWT shapes, assignment values and high-entropy words only that a chosen span overlaps them, since an earlier choice may cover them in part; `SecretSpans.UnderVendorExactly` says what a vendor secret displaces, `SecretSpans.AloneIsChosen` when a candidate is safe, and `SecretSpans.WhollyInsideExactly` which part of a vendor secret is covered.
- Scanning twice: an alias next to `password=` is itself an assignment value and is redacted again, so no idempotence is claimed.
- `now` and other clock readings inside one call are one value; poll intervals and the hook's sleep are steps that may happen at any time.
- AcpStreams: a thread that panics is one that takes no further step, which changes none of the results.
- ACP: events appended after a call's last poll, since the source does not drain the log when it sees a terminal status; the text of updates; cancellation flags.
- AcpTurns: a `dispatch` call is one step, since only the stdin loop makes it; messages other than answers, the planning notice and the first permission request of `AcpReplies.RequestLeavesEntry` are arbitrary texts; a step may answer any prompt before its notice, goals included, as the sources of such answers are left out; only the words of slash commands and status queries are classified, lower-cased as ASCII; JSON object keys are in alphabetical order, as they are without the `preserve_order` feature; server ids are distinct for the first 2^64 draws.
- AcpTurns.AnsweredOnceLiveOrLost: does not claim that a live turn ends, which depends on the daemon and the clock.
- How the hook names the resource of a tool call: the theorems hold for any resource string.
- PendingMerge: session and repository lookups of the handler that fail before the merge, and a merge that fails; `merged` lists the attempts.
- Preferences: the `context`, `learned_from` and time columns play no part in decisions; only the context is kept. `list_pending` and `get_approval` are plain reads.
- Preferences.Store.ListPreferences: does not state the order of rows, which the lookup is proved not to depend on.
- PoolKeys.PoolKeyStore.List: does not state the order of rows, on which the fresh id does not depend.
- Backup: symlinks and special files met at the restore target, lossy display of non-UTF-8 names, and Windows path prefixes.
- BackupExport.ImportOfExport: is stated for disks the tree fits, that is without a file where a directory must go or the reverse, with fresh backup names and no file at the manifest's own name; `BackupRestore.Disk.RestoreOneFile` says what happens otherwise.
- `Fallback`: reading and writing the registry file around each call.
- Adapters, account and skill file copying, preset tables, the OpenAI-compatible server, the updater, rendering and the command tree: plumbing or keyed upserts, which would only add easy members.
- The coordinator, the pool engine and the MCP and LSP gateways: only the functions cited above are modelled.
