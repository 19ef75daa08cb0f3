# SysKnife: a verified model of its kernels

SysKnife lets a language model propose system changes, a human approve them and a privileged daemon run
them. This project models, in Dafny, the parts of it whose correctness does not show in any single function,
and proves what those parts are for. `dafny verify dfyconfig.toml` checks everything.

| file | what it models |
|---|---|
| `Bytes.dfy`, `Wrappers.dfy`, `TextLines.dfy`, `DoubleSpace.dfy` | byte buffers, prefix-free codes, decimal numbers, lines, padding |
| `AuditChain.dfy`, `AuditReader.dfy` | the escaping encoder of audit rows, the keyed hash chain over them, and a reader for the encoding |
| `CanonicalJson.dfy`, `JsonReader.dfy` | the canonical JSON printer, the approval hash built on it, and a reader after RFC 8259 |
| `TransactionStore.dfy`, `ApprovalProtocol.dfy`, `ApprovalPath.dfy`, `ApprovalTtl.dfy` | the transaction table, the preview/approve/execute protocol of any number of connections over it, what lies behind every execution, and how long an approval lives |
| `CivilDate.dfy`, `Rfc3339.dfy` | the two civil-date formulas, and the time printer and parser that use them |
| `AnsiStrip.dfy`, `Sanitize.dfy`, `BlockedTags.dfy`, `CodePoints.dfy`, `CleanOutput.dfy` | the sanitiser for tool output, also told by the code points of RFC 3629 |
| `Planner.dfy` | the bounded conversation with the language model |
| `RateLimit.dfy` | the sliding-window limiter |
| `Prefs.dfy` | the preferences file |
| `JobHistory.dfy` | the history listing and its parser |
| `StructuredData.dfy` | the RFC 5424 frame of an audit event and a reader for it |
| `Framing.dfy`, `Journal.dfy` | length-prefixed frames and journald datagrams |

## How the model is set up

- HMAC, SHA-256 and NFC are function parameters about which nothing is assumed. A statement that would need
  them to be injective says instead: the inputs are equal, *or* two particular different messages of the rows
  at hand carry the same tag (`Collide`, `Collision`, `DigestCollision`).
- Rust strings are byte sequences where the code counts or slices bytes (audit rows, JSON, sanitiser, prefs,
  journal, planner), and character sequences where it works on characters (times, history, syslog).
- Code that updates something in place is a class or a method with loops; each method is proved equal to a
  specification function, and the theorems are about that function.
- Whatever is written for someone else to read - audit rows, JSON, syslog frames, journal records, envelopes, times -
  is proved against a reader, a grammar or a spelled-out form that has byte values of its own.
- The protocol is a state machine. A connection is a handler that looks up, claims, announces, executes,
  checks and writes, one step at a time, and any two steps of different connections may interleave, including
  the check and the write inside one status update, which are two statements in the store. The variables
  `log` and `trails` only record history.
- Integer division truncates in Rust and is written `TruncDiv`; 64-bit wrap-around in the time parser is
  `Wrap64`.

## What the code does not do

Some properties that the documentation promises hold only under a condition. The code is modelled as it is, the
condition is proved to be exact, and a witness shows that the failing side is inhabited.

- **Approval lifetime.** The SQLite store writes creation times as `2024-05-01T12:00:00.000Z` but compares them,
  as text, with `2024-05-01 11:45:00`. The letter `T` sorts after the space, so only the days are compared. A
  preview of midnight can be approved for 24 hours and 15 minutes rather than 15 minutes (`TtlKeptExactly`,
  `MidnightLastsLongest`). The same holds for the `since` filter of the history, which lists whole UTC days
  (`SinceListsWholeDays`). The Postgres store casts to `timestamptz` and is not affected.
- **Escape stripper.** `strip_ansi` slices the string inside a character, and panics, exactly when one of its
  fixed skips swallows the first byte of a multi-byte character (`StripExact`, `EscapeBeforeAccent`).
- **Truncated tags.** Every start of an opening tag in a sanitised body is followed by `_BLOCKED`, unless the
  truncation cuts inside that mark, as it does on a raw output of letters around one tag (`BodyIsBlockedExactly`,
  `CutCanOpenATag`).
- **Rate limiter.** The reported `retry_after` is one second short unless the oldest call is exactly 60 seconds
  old (`RetryAfterIsShort`, `SixtySecondsAreNotEnough`). Whoever calls and how often, the per-minute bound is
  kept on a clock exactly when the limit is one or the clock never shows a time, then one more than 60 seconds
  later, and then one within 60 seconds of the first again (`BoundKeptExactly`, `BackwardClockBreaksTheBound`).
  Dropping old timestamps goes unnoticed exactly when the clock never shows a time, then one more than 60 seconds
  later, and then one at most 60 seconds after the first or before it (`CompactionHiddenExactly`,
  `BackwardClockShowsCompaction`).
- **History parser.** A summary survives printing and parsing exactly when it has no line feed, no white space at
  its ends and no four spaces in a row; an empty one survives only behind an odd run of padding
  (`ListingReadsBack`, `LineFeedIsLost`, `FourSpacesAreLost`, `EmptySummaryDependsOnStatus`). The summaries that the
  daemon itself writes always survive (`PreviewSummarySurvives`).
- **Time parser.** Of all texts it accepts, printing restores exactly the printed forms of real moments from 1970
  on (`FormatOfAccepted`). It also accepts 31 February and second 60, which it moves to another time
  (`FebruaryMovesToMarch`, `LeapSecondMovesToMidnight`), and negative hours, minutes and seconds
  (`NegativeFieldsAccepted`). In the other direction nothing is lost: every time that a signed 64-bit clock can
  show is restored (`ParseOfFormat`).
- **Frames.** The writer accepts messages up to 2^32 - 1 bytes, the reader refuses them above 4 MiB
  (`LargeFrameIsRefused`).
- **Preferences.** A fact appended to a file without a final newline is glued to its last line and cannot be
  found (`AppendedCanBeFound`, `GluedFactIsLost`).
- **A lost `JobStarted`.** A Running row stays Running under everything that can follow exactly when no connection
  holds it (`RunningForGoodExactly`). That is what becomes of a row when announcing its job fails, or the final
  update does (`FailedUpdateIsFinal`, `LostStartOrphans`).
- **The planner panics** exactly when a dispatched call brings in a text that makes the escape stripper panic
  (`PanicsExactly`).
- **Tail truncation** of the audit log is not detected by the chain alone, as its documentation says; a saved
  tip detects it (`TipBindsHistory`). In the hashed fields nothing else is missed: without the key, whatever is done to
  the rows, an intact result is a prefix of the original or two rows collide (`OnlyPrefixesStayIntact`).

## Model

| member | source | states |
|---|---|---|
| AuditContent.PushField | crates/sysknife-daemon/src/audit_chain.rs:370-383 | the in-place escaping loop appends exactly the field in its prefix-free code |
| AuditContent.CanonicalBytes | crates/sysknife-daemon/src/audit_chain.rs:327-350 | the buffer filled field by field is the canonical encoding |
| AuditContent.EscapesArePrefixFree | crates/sysknife-daemon/src/audit_chain.rs:370-383 | no escape of a byte is a prefix of another, and none starts with the field terminator |
| AuditContent.FieldSelfDelimiting | crates/sysknife-daemon/src/audit_chain.rs:370-383 | equal texts that start with a field of the same tag start with the same value and continue alike |
| AuditContent.CanonicalSelfDelimiting | crates/sysknife-daemon/src/audit_chain.rs:327-350 | canonical(a) + p == canonical(b) + q forces a and b to agree in every hashed field and p == q, for all byte strings p and q |
| AuditContent.CanonicalIffSame | crates/sysknife-daemon/src/audit_chain.rs:327-350 | two rows encode alike if and only if all hashed fields agree, an absent approval counting as an empty one |
| AuditReader.FieldsRead | crates/sysknife-daemon/src/audit_chain.rs:370-383 | a reader that cuts at 0x1E and 0x1F and undoes the four documented escapes gets any list of fields back, each value under its own tag, whatever bytes the values hold |
| AuditReader.CanonicalReads | crates/sysknife-daemon/src/audit_chain.rs:327-350 | read that way, the canonical bytes of every row are eleven fields in the documented order under the documented tags: seq in decimal without leading zeros, risk as a word, an absent approval empty, all others byte for byte |
| AuditChain.VerifyChain | crates/sysknife-daemon/src/audit_chain.rs:437-490 | the loop reports Intact exactly when every row has the key id, link and tag it should, and otherwise the least failing row with the reason |
| AuditChain.FirstFaultUnique | crates/sysknife-daemon/src/audit_chain.rs:437-490 | a list of rows has one first fault, so the report is determined |
| AuditChain.ReportSays | crates/sysknife-daemon/src/audit_chain.rs:437-490 | the report names the failing row's number and identifier and, after a foreign key, first the link and then the tag that differs, expected against found |
| AuditChain.EqualTags | crates/sysknife-daemon/src/audit_chain.rs:189-197 | rows with equal tags agree in all hashed fields and in the previous link, or their two different messages collide |
| AuditChain.PrefixOk | crates/sysknife-daemon/src/audit_chain.rs:437-490 | every prefix of an intact chain is intact |
| AuditChain.TipBindsHistory | crates/sysknife-daemon/src/audit_chain.rs:189-197 | two intact chains of any lengths that end in the same tag agree row for row, or a collision among their rows is exhibited |
| AuditChain.AppendKeepsOk | crates/sysknife-daemon/src/transactions.rs:599-693 | appending a freshly hashed row keeps a chain intact |
| AuditChain.DeletionIsReported | crates/sysknife-daemon/src/audit_chain.rs:437-490 | deleting a row other than the last is reported at exactly the row after it, or a collision is exhibited |
| AuditChain.EditIsReported | crates/sysknife-daemon/src/audit_chain.rs:437-490 | changing a hashed field of a row is reported at exactly that row, or its old and new messages collide |
| AuditChain.RetagIsReported | crates/sysknife-daemon/src/audit_chain.rs:437-490 | replacing the stored tag of a row that is not the last, with or without other fields, is reported at that row or at the next |
| AuditChain.OnlyPrefixesStayIntact | crates/sysknife-daemon/src/audit_chain.rs:437-490 | if every row carries a message of some row of an intact chain with distinct seq, as it must without the key, an intact list is a prefix of that chain, or two of its rows collide; this covers deleting, copying, moving and splicing at once |
| KeyOrder.SortSorts | crates/sysknife-daemon/src/dispatcher.rs:459-489 | sorting the members of an object orders distinct keys strictly |
| KeyOrder.SortedSameKeys | crates/sysknife-daemon/src/dispatcher.rs:459-489 | two sorted member lists with the same keys list them in the same order |
| KeyOrder.LessIsLexicographic | crates/sysknife-daemon/src/dispatcher.rs:463 | one key sorts before another if and only if it is a proper prefix of it or has the smaller byte where they first differ |
| CanonicalJson.QuoteSelfDelimiting | crates/sysknife-daemon/src/dispatcher.rs:459-489 | a quoted string can be told from whatever follows it |
| CanonicalJson.ReadBack | crates/sysknife-daemon/src/dispatcher.rs:459-489 | canonical text followed by anything that cannot extend a number determines the value, up to key order, and the rest |
| CanonicalJson.SamePrintsAlike | crates/sysknife-daemon/src/dispatcher.rs:459-489 | values that differ only in key order, at any depth, print alike |
| CanonicalJson.CanonicalIffSame | crates/sysknife-daemon/src/dispatcher.rs:459-489 | canonical texts are equal if and only if the values are the same up to key order at every depth, array order kept |
| JsonReader.CanonicalIsJson | crates/sysknife-daemon/src/dispatcher.rs:459-489 | whatever may follow it, canonical text is read by a reader for sections 2 to 7 of RFC 8259 as the same value, with the keys of every object increasing, and the reader stops where the text ends |
| CanonicalJson.CanonicalNulFree | crates/sysknife-daemon/src/dispatcher.rs:459-489 | canonical text contains no NUL byte |
| RequestHash.PreImageIffSameRequest | crates/sysknife-daemon/src/dispatcher.rs:444-457 | the hashed bytes determine action and params up to key order, for every action name, even one that contains NUL |
| RequestHash.EqualHashes | crates/sysknife-daemon/src/dispatcher.rs:444-457 | equal approval hashes mean the same request or two different hashed texts with the same digest |
| JsonReader.HashedTextReads | crates/sysknife-daemon/src/dispatcher.rs:444-457 | what is hashed is the action, one NUL byte, and a JSON text that reads as the parameters |
| Jobs.LifecycleShape | crates/sysknife-daemon/src/jobs.rs:63-74 | the status histories of allowed moves are exactly Queued; Queued, Canceled; Queued, Running; and Queued, Running and one of the five states in which a job can end |
| TransactionStore.Find | crates/sysknife-daemon/src/transactions.rs:225-256 | the row found is the newest queued, fresh row with the hash, and none is found only when there is none |
| TransactionStore.StaleIds | crates/sysknife-daemon/src/transactions.rs:351-362 | cleanup selects exactly the queued rows that are not newer than the cutoff |
| TransactionStore.TransactionStore.RecordPreviewed | crates/sysknife-daemon/src/transactions.rs:163-189 | recording inserts one queued row linked to the tip, refuses a used id and keeps the store valid |
| TransactionStore.TransactionStore.ClaimForExecution | crates/sysknife-daemon/src/transactions.rs:325-335 | the claim succeeds exactly on a queued row, moves it to Running and changes nothing else |
| TransactionStore.TransactionStore.UpdateStatus | crates/sysknife-daemon/src/transactions.rs:277-311 | an update makes only allowed moves and names the error otherwise |
| TransactionStore.TransactionStore.CleanupStaleQueued | crates/sysknife-daemon/src/transactions.rs:351-362 | cleanup cancels exactly the stale rows and counts them |
| TransactionStore.RecordedValid | crates/sysknife-daemon/src/transactions.rs:599-693 | recording keeps the chain intact, seq gap-free and ids distinct |
| TransactionStore.StatusOpsKeepValid | crates/sysknife-daemon/src/audit_chain.rs:28-32 | claim, update and cleanup never disturb the audit chain |
| ApprovalTtl.FreshComparesDays | crates/sysknife-daemon/src/transactions.rs:241-249 | a row counts as fresh if and only if its UTC day is not before the day of the cutoff |
| ApprovalTtl.FoundOrCanceledByDay | crates/sysknife-daemon/src/transactions.rs:351-362 | a queued row matches until its day lies before the cutoff's, and from then on, and only then, cleanup cancels it |
| ApprovalTtl.TtlKeptExactly | crates/sysknife-daemon/src/transactions.rs:337-338 | the fifteen minutes are kept if and only if the row was not created earlier on the cutoff's own UTC day; a row within them is never refused |
| ApprovalTtl.MidnightLastsLongest | crates/sysknife-daemon/src/transactions.rs:623-626 | a preview of midnight stays approvable for exactly 24 hours and 15 minutes |
| ApprovalTtl.CreatedAtIsRead | crates/sysknife-daemon/src/transactions.rs:623-626 | the creation time that the store writes is read by the command line's parser as the second of its creation |
| ApprovalTtl.NewerComparesDays | crates/sysknife-daemon/src/transactions.rs:404-406 | for any cutoff, a row is newer if and only if its UTC day is not before the cutoff's |
| ApprovalTtl.HoursLeadToMoment | apps/sysknife-cli/src/runner.rs:90-100 | the hours sent for a printed `since` time lead back to the last moment a whole number of hours before now |
| ApprovalTtl.SinceListsWholeDays | crates/sysknife-daemon/src/transactions.rs:404-406 | a `since` filter lists whole UTC days, omits no later row if and only if the rounding to hours stays within the day, and lists no earlier row if and only if that day starts at or after the time asked for |
| ApprovalProtocol.StepSafe | crates/sysknife-daemon/src/dispatcher.rs:1268-1482 | every step of every connection keeps the protocol invariant |
| ApprovalProtocol.RunKeepsInv | crates/sysknife-daemon/src/dispatcher.rs:1268-1482 | the invariant holds after every interleaving of any number of connections |
| ApprovalProtocol.EveryRunIsSafe | crates/sysknife-daemon/src/dispatcher.rs:1295-1354 | in every interleaving a row is started and run at most once and only after its preview, no two handlers hold the same row, and every status history is a lifecycle |
| ApprovalProtocol.ChainIntactInEveryRun | crates/sysknife-daemon/src/dispatcher.rs:1122-1144 | in every interleaving the audit log verifies, its seq is gap-free, its ids are distinct, and it has exactly one row for each preview |
| ApprovalProtocol.StatusChangesAreAllowed | crates/sysknife-daemon/src/transactions.rs:277-311 | every status change of every interleaving is an allowed move, although check and write are separate statements |
| ApprovalProtocol.LoserChangesNothing | crates/sysknife-daemon/src/dispatcher.rs:1329-1354 | when two connections found the same queued row, the first claim holds it, and whatever happens before the second one claims, that claim leaves table, log and status histories as they are and only ends its connection |
| ApprovalProtocol.OrphanForever | crates/sysknife-daemon/src/dispatcher.rs:1429-1464 | a Running row that no handler holds is never started, run or moved again, whatever follows |
| ApprovalProtocol.FailedUpdateIsFinal | crates/sysknife-daemon/src/dispatcher.rs:1429-1464 | when a handler that holds a row fails, the row stays Running and can never be executed again |
| ApprovalProtocol.HeldRowCanFinish | crates/sysknife-daemon/src/dispatcher.rs:1356-1464 | from every state that keeps the invariant, the holder of a row can bring it to a terminal status |
| ApprovalProtocol.RunningForGoodExactly | crates/sysknife-daemon/src/dispatcher.rs:1358-1464 | a Running row stays Running under every continuation if and only if no connection holds it |
| ApprovalProtocol.LostStartOrphans | crates/sysknife-daemon/src/dispatcher.rs:1358-1366 | every request can be previewed, found while it is newer than the cutoff, claimed and left Running for good, when the start message cannot be sent |
| ApprovalProtocol.StartsNeverOutnumberPreviews | crates/sysknife-daemon/src/dispatcher.rs:1295-1366 | in every interleaving the starts of a hash never outnumber its previews |
| ApprovalProtocol.ExecutedWasPreviewed | crates/sysknife-daemon/src/dispatcher.rs:1268-1354 | in every interleaving, whatever is executed was previewed as the same request in the same row, or two hashed texts with the same digest are exhibited |
| ApprovalPath.StartedWasApproved | crates/sysknife-daemon/src/dispatcher.rs:1295-1389 | in every interleaving, whatever was started or run has these steps of one connection behind it, in this order: a request with its own hash as approval, a lookup that found the row as the newest queued one previewed under that hash after the cutoff, a claim of the row while queued, the start message, and only then the run |
| ApprovalPath.NothingWithoutApproval | crates/sysknife-daemon/src/dispatcher.rs:1295-1299 | in every interleaving nothing is started or run unless a connection sent the request's own hash as its approval |
| ApprovalPath.ServedExactly | crates/sysknife-daemon/src/dispatcher.rs:1268-1464 | an execute request that nothing interrupts changes nothing at all if its approval is not the request's hash or no queued row newer than the cutoff was previewed under it, and otherwise starts, runs and finishes exactly the newest such row |
| ApprovalPath.EveryRowIsRecorded | crates/sysknife-daemon/src/transactions.rs:599-693 | in every interleaving each row of the audit log holds what a preview that took place was given, each thing in its own field |
| ApprovalPath.CleanupExactly | crates/sysknife-daemon/src/transactions.rs:351-362 | from every reachable state cleanup cancels exactly the queued rows that are not newer than the cutoff, and touches nothing else |
| ApprovalPath.RestartOrphans | crates/sysknife-daemon/src/dispatcher.rs:1329-1464 | a row that is Running when the daemon restarts stays Running for good, whatever follows |
| CivilDate.ClosedForm | apps/sysknife-cli/src/runner.rs:146-159 | the era form with truncating division is the plain March-based day formula |
| CivilDate.DaysFromCivilCounts | apps/sysknife-cli/src/runner.rs:146-159 | the constant-time day number equals counting days year by year and month by month |
| CivilDate.DaysFromCivilMonotone | apps/sysknife-cli/src/runner.rs:146-159 | over valid dates the order of dates and of day numbers agree, both ways |
| CivilDate.CivilFromDaysInverts | crates/sysknife-brain/src/audit.rs:37-49 | the printer's formula always yields a real calendar date, and the parser's formula maps it back to the day |
| CivilDate.DaysFromCivilInverts | crates/sysknife-brain/src/audit.rs:37-49 | every real date is restored from its day number |
| Rfc3339.StampFromUnixIsReal | crates/sysknife-brain/src/audit.rs:20-52 | the printed fields are a real date from 1970 on and a real time of day that stand for the given seconds |
| Rfc3339.ParsePrinted | apps/sysknife-cli/src/runner.rs:109-160 | parsing the print of any in-range fields gives the same fields |
| Rfc3339.ParseOfFormat | apps/sysknife-cli/src/runner.rs:109-160 | printing then parsing is the identity if and only if the time is below 2^63 seconds, as every time a signed 64-bit clock can show is |
| Rfc3339.FirstLostMoment | apps/sysknife-cli/src/runner.rs:159 | that bound is sharp in the arithmetic: 2^63 would come back as the most negative number |
| Rfc3339.FormatOfParse | apps/sysknife-cli/src/runner.rs:109-160 | for texts of the printer's shape, parsing then printing restores the text if and only if the date is in the calendar and the second is at most 59 |
| Rfc3339.FormatOfAccepted | apps/sysknife-cli/src/runner.rs:109-160 | for every text the parser accepts, printing restores it if and only if it is the printed form of a real moment from 1970 on |
| Rfc3339.AcceptedExactly | apps/sysknife-cli/src/runner.rs:109-160 | the parser yields a number if and only if the text is spelled from six numbers, a tail and a zone with the checked ranges, and then it is the sum of their seconds, wrapped to 64 bits |
| Rfc3339.NegativeFieldsAccepted | apps/sysknife-cli/src/runner.rs:130-144 | hours, minutes and seconds with a minus sign are accepted with their value, and never restored |
| Rfc3339.ZonesAgree | apps/sysknife-cli/src/runner.rs:110 | `Z` and `+00:00` mean the same |
| Rfc3339.FractionDropped | apps/sysknife-cli/src/runner.rs:115-116 | a fraction of a second changes nothing |
| Rfc3339.FebruaryMovesToMarch | apps/sysknife-cli/src/runner.rs:139-144 | 31 February 2023 is accepted and is taken for 3 March |
| Rfc3339.LeapSecondMovesToMidnight | apps/sysknife-cli/src/runner.rs:139-144 | second 60 is accepted and is taken for the midnight after it |
| Rfc3339.SinceToHoursOfFormat | apps/sysknife-cli/src/runner.rs:90-100 | the hours since a printed time are its whole hours, and absent exactly for a future or too distant time |
| AnsiStrip.TokensCover | crates/sysknife-brain/src/sanitize.rs:198-255 | the tokens of a text are non-empty and joined again are the text |
| AnsiStrip.TokenShape | crates/sysknife-brain/src/sanitize.rs:198-255 | what the first token of a text is and where it ends, byte by byte: characters, control sequences, commands, designators and lone escapes, ended or not |
| AnsiStrip.NextCharBoundary | crates/sysknife-brain/src/sanitize.rs:257-263 | the cursor moves behind the character's continuation bytes |
| AnsiStrip.StripAnsi | crates/sysknife-brain/src/sanitize.rs:198-255 | the byte-cursor loop computes what the recursive tokeniser keeps, or panics where that is undefined |
| AnsiStrip.StripExact | crates/sysknife-brain/src/sanitize.rs:231-246 | on well-formed text the stripper finishes if and only if no fixed skip cuts a character, and then keeps exactly the visible text, well-formed |
| AnsiStrip.EscapeBeforeAccent | crates/sysknife-brain/src/sanitize.rs:239-242 | an escape byte before a two-byte letter makes the stripper panic |
| AnsiStrip.StripKeepsText | crates/sysknife-brain/src/sanitize.rs:198-255 | the result is a subsequence of the text and contains no escape byte |
| AnsiStrip.StripIdentity | crates/sysknife-brain/src/sanitize.rs:198-255 | a text without escape bytes is returned unchanged |
| Sanitize.StripDangerousUnicode | crates/sysknife-brain/src/sanitize.rs:275-297 | the loop keeps exactly the characters that are not dangerous |
| Sanitize.SafeTextIsSafe | crates/sysknife-brain/src/sanitize.rs:275-297 | no dangerous character is left and the rest stays well-formed |
| Sanitize.SafeTextUnchanged | crates/sysknife-brain/src/sanitize.rs:275-297 | a text is kept whole if and only if none of its characters is dangerous |
| CodePoints.CodePointOfEncode | crates/sysknife-brain/src/sanitize.rs:277-278 | the bytes of section 3 of RFC 3629 for any code point are one character, which is decoded to that code point |
| CodePoints.SafeTextByCodePoint | crates/sysknife-brain/src/sanitize.rs:279-296 | of a text with any code points exactly those in the listed ranges are dropped, and the others stay in order |
| Replacing.ReplaceAtFirst | crates/sysknife-brain/src/sanitize.rs:185-191 | replacing takes the first occurrence and goes on behind it |
| Sanitize.NeutralisedHasNoTag | crates/sysknife-brain/src/sanitize.rs:185-191 | after both replacements neither the closing tag nor the opening tag with its space occurs, the second replacement not recreating the first |
| Sanitize.NeutralisedUnchanged | crates/sysknife-brain/src/sanitize.rs:185-191 | a text is left alone if and only if it contains neither the closing tag nor the start of an opening tag |
| Sanitize.CollapseBlankRuns | crates/sysknife-brain/src/sanitize.rs:309-324 | the counting loop computes the recursive collapse |
| Sanitize.CollapseLimitsRuns | crates/sysknife-brain/src/sanitize.rs:309-324 | three newlines in a row never remain |
| Sanitize.CollapseKeepsText | crates/sysknife-brain/src/sanitize.rs:309-324 | only newlines are dropped, everything else stays in order |
| Sanitize.CollapseRun | crates/sysknife-brain/src/sanitize.rs:309-324 | a run of n newlines becomes one of min(n, 2), and every other byte is kept |
| Sanitize.CollapseUnchanged | crates/sysknife-brain/src/sanitize.rs:309-324 | a text is left alone if and only if it has no three newlines in a row |
| Sanitize.CollapseCreatesNoTag | crates/sysknife-brain/src/sanitize.rs:309-324 | collapsing newlines never joins two pieces into a tag |
| Sanitize.TruncateWithMarker | crates/sysknife-brain/src/sanitize.rs:329-344 | the cut goes back to the last character boundary that fits and the marker is appended |
| Sanitize.TruncatedFits | crates/sysknife-brain/src/sanitize.rs:329-344 | the result with its marker fits the limit and is cut at the last character boundary that leaves room for the marker; it is the text itself if and only if that fits |
| Sanitize.TruncatedCreatesNoTag | crates/sysknife-brain/src/sanitize.rs:329-344 | neither the cut nor the marker creates a tag |
| Sanitize.SafeToolNameIsSafe | crates/sysknife-brain/src/sanitize.rs:133-157 | a cleaned tool name is non-empty, has only name characters and one for each character of the name |
| Sanitize.SafeNamesKept | crates/sysknife-brain/src/sanitize.rs:133-157 | the printed tool name is the name itself if and only if that is non-empty and has only name characters |
| CodePoints.ToolNameByCodePoint | crates/sysknife-brain/src/sanitize.rs:133-157 | a printed tool name has one byte for each code point of the name: the code point itself if it is a letter, digit, `-` or `_`, and `_` otherwise |
| Sanitize.SanitizeToolOutput | crates/sysknife-brain/src/sanitize.rs:119-128 | the whole pipeline computes the enveloped normalised text, or panics with the stripper |
| Sanitize.EnvelopeExact | crates/sysknife-brain/src/sanitize.rs:119-128 | around a tag-free body the envelope has each of its tags exactly once, at its ends |
| Sanitize.EnvelopeCannotBeSpoofed | crates/sysknife-brain/src/sanitize.rs:119-173 | for every tool name, text and normalisation, the output has the opening tag exactly once, at the start, and the closing tag exactly once, at the end |
| Sanitize.HarmlessTextKept | crates/sysknife-brain/src/sanitize.rs:119-173 | a text on which no pass has anything to do comes out unchanged inside its envelope |
| Sanitize.OutputSpelled | crates/sysknife-brain/src/sanitize.rs:119-128 | every output is the opening line with the cleaned name, a body of at most 8192 bytes, and the closing line, letter by letter |
| CleanOutput.OutputIsClean | crates/sysknife-brain/src/sanitize.rs:119-173 | whatever comes in, the body is whole characters of which none is dangerous, and has three newlines in a row at most at the truncation marker |
| BlockedTags.NeutralisedIsBlocked | crates/sysknife-brain/src/sanitize.rs:185-191 | after both replacements every start of an opening tag goes on with the mark `_BLOCKED` |
| BlockedTags.CollapseFollows | crates/sysknife-brain/src/sanitize.rs:309-324 | collapsing newlines keeps every mark behind its tag |
| BlockedTags.BodyIsBlockedExactly | crates/sysknife-brain/src/sanitize.rs:166-173 | in the body of an envelope every start of an opening tag carries its whole mark, if and only if the text fits or the cut does not fall inside a mark |
| BlockedTags.CutCanOpenATag | crates/sysknife-brain/src/sanitize.rs:119-173 | there is a raw tool output of printable ASCII whose sanitised body ends in an unmarked start of a tag, for every normalisation that keeps printable ASCII |
| RateLimit.RateLimiter.CheckAndConsume | crates/sysknife-brain/src/rate_limit.rs:114-192 | one call decides by the file's timestamps in the window and rewrites the file compacted, or leaves it when refused or not writable; an unreadable file counts as empty, so the call is accepted and the window is forgotten |
| RateLimit.CompactionHiddenExactly | crates/sysknife-brain/src/rate_limit.rs:147-191 | for every limit, the limiter that compacts its file gives every call, made any number of times at each reading of a clock, the result of one that keeps all accepted timestamps, if and only if the clock never forgets |
| RateLimit.CompactionIsInvisible | crates/sysknife-brain/src/rate_limit.rs:147-191 | in particular the two agree on every call of every run with a non-decreasing clock |
| RateLimit.BackwardClockShowsCompaction | crates/sysknife-brain/src/rate_limit.rs:147-191 | a witness: after two calls at 100 and one at 200 with a limit of two, a call at 100 is accepted on the compacted file and refused on the full one |
| RateLimit.AtMostMaxPerWindow | crates/sysknife-brain/src/rate_limit.rs:133-191 | with a non-decreasing clock, at most max accepted calls fall into any closed window of 60 seconds |
| RateLimit.NoReturnKeepsBound | crates/sysknife-brain/src/rate_limit.rs:133-191 | on a clock that never returns, every window of 60 seconds holds at most max accepted calls, for every limit |
| RateLimit.OneIsAlwaysKept | crates/sysknife-brain/src/rate_limit.rs:133-191 | a limit of one is kept whatever the clock does |
| RateLimit.ReturnBreaksTheBound | crates/sysknife-brain/src/rate_limit.rs:133-191 | for every limit of at least two and every three readings that return, max + 1 accepted calls fall into one window |
| RateLimit.BoundKeptExactly | crates/sysknife-brain/src/rate_limit.rs:133-191 | the bound is kept on a clock, for any number of calls at each reading, if and only if the limit is one or the clock never returns |
| RateLimit.OnlyOneIsAlwaysKept | crates/sysknife-brain/src/rate_limit.rs:133-191 | the bound holds for every run if and only if the limit is one |
| RateLimit.BackwardClockBreaksTheBound | crates/sysknife-brain/src/rate_limit.rs:133-191 | a witness: a limit of two, and calls at 100, 100, 200 and 100 |
| RateLimit.RefusalLasts | crates/sysknife-brain/src/rate_limit.rs:147-169 | after a refusal every call up to oldest + 60 is refused and the one at oldest + 61 is accepted |
| RateLimit.RetryAfterIsShort | crates/sysknife-brain/src/rate_limit.rs:147-169 | the reported wait admits the caller if and only if the oldest call is 60 seconds old already; otherwise one second more does |
| RateLimit.SixtySecondsAreNotEnough | crates/sysknife-brain/src/rate_limit.rs:147-157 | a witness: told to wait 60 seconds at 100, refused again at 160, accepted at 161 |
| Prefs.PrefsFile.AppendPref | crates/sysknife-brain/src/prefs.rs:94-142 | what appending does to the file, with every error leaving it as it was |
| Prefs.PrefsFile.RemovePref | crates/sysknife-brain/src/prefs.rs:144-177 | what removing does to the file, with the loop and its found flag |
| Prefs.HasFactOfRender | crates/sysknife-brain/src/prefs.rs:115-120 | a rendered list is found to have a fact if and only if the list has it |
| Prefs.StepRefines | crates/sysknife-brain/src/prefs.rs:94-177 | every operation on the text does what the operation on the list of facts does |
| Prefs.RunRefines | crates/sysknife-brain/src/prefs.rs:94-177 | from an empty file, after any operations, the text is the rendering of a duplicate-free list and at most 10240 bytes |
| Prefs.RemoveUndoesAppend | crates/sysknife-brain/src/prefs.rs:144-177 | removing a just-appended fresh fact restores the file byte for byte |
| Prefs.AppendedCanBeFound | crates/sysknife-brain/src/prefs.rs:122-133 | on any file, an appended fact can be found again if and only if the file was empty or ended with a newline |
| Prefs.GluedFactIsLost | crates/sysknife-brain/src/prefs.rs:122-133 | a witness: on the file `x` without a newline the appended fact `y` is lost |
| JobHistory.FormatJobHistory | crates/sysknife-daemon/src/dispatcher.rs:1652-1671 | the loop prints the header and one padded row for each record |
| JobHistory.RowColumns | crates/sysknife-daemon/src/dispatcher.rs:1658-1668 | identifier, action, status and summary stand at the offsets 2, 12, 44 and 58 of every row whose action has at most 30 characters |
| JobHistory.ParseHistoryText | apps/sysknife-cli/src/mcp_server.rs:690-722 | the loop collects what each line contributes |
| DoubleSpace.SqueezeExact | apps/sysknife-cli/src/mcp_server.rs:704-716 | splitting at double spaces, dropping empty pieces and joining gives a text back if and only if it has no four spaces in a row |
| DoubleSpace.SpacesCollapse | apps/sysknife-cli/src/mcp_server.rs:704 | of a run of padding only its parity is left |
| DoubleSpace.Recovered | apps/sysknife-cli/src/mcp_server.rs:704-716 | what comes back of a summary behind any padding, exactly |
| JobHistory.RowExact | apps/sysknife-cli/src/mcp_server.rs:704-719 | a printed row with a single-line summary parses to its entry if and only if that summary survives |
| JobHistory.ListingReadsBack | apps/sysknife-cli/src/mcp_server.rs:690-722 | parsing a printed listing gives every transaction back, in order, if and only if every summary survives |
| JobHistory.FourSpacesAreLost | apps/sysknife-cli/src/mcp_server.rs:704-716 | a witness: a summary with four spaces does not come back |
| JobHistory.LineFeedIsLost | apps/sysknife-cli/src/mcp_server.rs:692 | a witness: a summary with a line feed does not come back |
| JobHistory.NewlineIsLost | apps/sysknife-cli/src/mcp_server.rs:692 | no text at all parses to records of which one has a line feed in its summary |
| JobHistory.PreviewSummarySurvives | crates/sysknife-daemon/src/preview.rs:433-441 | the summary that the daemon writes for a preview always survives |
| JobHistory.EmptySummaryDependsOnStatus | apps/sysknife-cli/src/mcp_server.rs:704-708 | an empty summary comes back for Running, Succeeded and NeedsReboot and is lost for the other states |
| StructuredData.SdEscape | crates/sysknife-daemon/src/audit_forward.rs:343-356 | the loop writes the printable part of a value in the escape code |
| StructuredData.KeptExact | crates/sysknife-daemon/src/audit_forward.rs:343-356 | a value is kept whole if and only if it is printable ASCII |
| StructuredData.KeptSplits | crates/sysknife-daemon/src/audit_forward.rs:343-356 | each character is kept or dropped on its own |
| StructuredData.ReadHostname | crates/sysknife-daemon/src/audit_forward.rs:365-373 | the host name is one printable token of at most 255 characters whatever the kernel says, and is the kernel's trimmed name if and only if that is one |
| StructuredData.ValueReads | crates/sysknife-daemon/src/audit_forward.rs:343-356 | a section 6.3.3 reader gets an escaped value back and stops at its own closing quote |
| StructuredData.ElementReads | crates/sysknife-daemon/src/audit_forward.rs:300-318 | a section 6.3 reader gets every parameter of an element back and stops at its own closing bracket |
| StructuredData.StructuredReadsBack | crates/sysknife-daemon/src/audit_forward.rs:284-319 | for any event and any following text the reader gets every parameter, less the characters that are not printable ASCII |
| StructuredData.PrintableEventsSurvive | crates/sysknife-daemon/src/audit_forward.rs:284-319 | the values come back unchanged if and only if all are printable ASCII |
| StructuredData.FrameReadsBack | crates/sysknife-daemon/src/audit_forward.rs:268-332 | the whole frame is read as it was meant, for any event text and host name, if and only if the time stamp is a non-empty token of printable characters |
| StructuredData.FrameSays | crates/sysknife-daemon/src/audit_forward.rs:268-332 | the reader learns facility and severity, time, host, program, process and kind of message, every event value under its own parameter name less what is not printable ASCII, and action and summary in the free text |
| LittleEndian.DecodeOfEncode | apps/sysknife-cli/src/client.rs:105-110 | a number survives its little-endian bytes if and only if it fits the width |
| LittleEndian.FourBytes | apps/sysknife-cli/src/client.rs:105-110 | the length prefix has its least significant byte first |
| LittleEndian.EncodeOfDecode | apps/sysknife-cli/src/client.rs:112-115 | every byte string is the encoding of its value, which fits the width |
| Framing.Stream.ReadExact | apps/sysknife-cli/src/client.rs:112-125 | the buffer is filled from the front of the stream, or the stream ends first |
| Framing.WriteFramed | apps/sysknife-cli/src/client.rs:105-110 | a message whose length fits 32 bits is written behind its length, any other is refused and nothing written |
| Framing.ReadFramed | apps/sysknife-cli/src/client.rs:112-125 | reading consumes and yields what the specification of one frame says |
| Framing.ReceivedExactly | apps/sysknife-cli/src/client.rs:112-125 | a message is received with the rest left over if and only if its frame opens the stream and it is at most 4 MiB |
| Framing.LargeFrameIsRefused | apps/sysknife-cli/src/client.rs:105-125 | every message above 4 MiB that the writer accepts is refused by the reader |
| Framing.CutFrameIsRefused | apps/sysknife-cli/src/client.rs:112-125 | a frame cut at any point is an error and never a shorter message |
| Framing.FramesReceived | apps/sysknife-cli/src/client.rs:105-125 | any number of frames in a row are received as their messages if and only if each is at most 4 MiB |
| Journal.EncodeMessage | crates/sysknife-brain/src/journal.rs:65-81 | the loop writes each field, values with a newline behind their length |
| Journal.BinaryFieldReads | crates/sysknife-brain/src/journal.rs:68-75 | a length-prefixed field is read back whatever bytes its value holds |
| Journal.MessageReadsBack | crates/sysknife-brain/src/journal.rs:65-81 | all fields come back, in order, if and only if every key is non-empty and free of equals signs and newlines |
| Planner.AnswerCalls | crates/sysknife-brain/src/planner.rs:816-1051 | the inner loop answers the calls in order and stops at the first that ends the run |
| Planner.TakeTurn | crates/sysknife-brain/src/planner.rs:744-1053 | one turn asks the provider once and extends the conversation or ends it |
| Planner.PlanIntent | crates/sysknife-brain/src/planner.rs:701-1057 | the checks come first, the provider is asked at most max_turns times, each time with 2t + 1 messages, and never when a check fails |
| Planner.DispatchAnswers | crates/sysknife-brain/src/planner.rs:816-1051 | a result carries the identifiers of its call, and exactly the text from outside that the call brought in, sanitised, in an envelope with each tag once |
| Planner.ToolCallsInOrder | crates/sysknife-brain/src/planner.rs:797-814 | the tool calls of a completion are its tool blocks, each once and in order |
| Planner.PreferenceReplies | crates/sysknife-brain/src/planner.rs:883-970 | the model is told that a fact was saved, removed or not found exactly when it asked for that by name and the preferences file says so |
| Planner.ErrorsAreMarked | crates/sysknife-brain/src/planner.rs:816-1051 | a result is marked as an error exactly when the world reported a failure or the planner's own notice is not about a preference kept |
| Planner.EveryConversationIsOk | crates/sysknife-brain/src/planner.rs:744-1053 | for any model and any world the conversation alternates, every completion that stopped for tools is answered call by call, in order, and text from outside is always enveloped |
| Planner.ConversationGrows | crates/sysknife-brain/src/planner.rs:744-1053 | the conversation of a turn is a prefix of every later one, each turn adding two messages |
| Planner.StuckExactly | crates/sysknife-brain/src/planner.rs:1056 | PlannerStuck is returned if and only if the checks pass and every turn was used up, and then the last completion stopped for tools without an acceptable plan |
| Planner.EndsExactly | crates/sysknife-brain/src/planner.rs:744-1056 | for every outcome: an admitted run has it if and only if some turn is reached whose completion ends the run with it, or it is PlannerStuck and no turn ends the run |
| Planner.NoPlanExactly | crates/sysknife-brain/src/planner.rs:764-814 | NoPlanProposed is returned if and only if an admitted run gets a completion that breaks off, ends in words on the last turn, ends without words, or stops for tools without calling any; otherwise an answer in words is corrected and asked for again |
| Planner.FirstValidPlanWins | crates/sysknife-brain/src/planner.rs:844-852 | a returned plan is the first one proposed in any turn that passes validation |
| Planner.PanicsExactly | crates/sysknife-brain/src/planner.rs:816-1051 | a run panics if and only if it is admitted and dispatches a call that brings in a text inside one of whose characters the escape stripper cuts |

## Left out

- Files, sockets, clocks, threads, processes and permissions: clocks and write results are parameters, the store is a table.
- Interleaving inside one SQL statement or one SQL transaction: the store runs them atomically.
- HMAC, SHA-256 and NFC themselves: function parameters.
- Debug builds, which panic on the integer overflows that `Rfc3339.ParsePrinted` lets wrap.
- JSON number formatting: a float is modelled by its printed text, a number of the JSON grammar with a point or an exponent.
- Authorisation, policy and action specifications in the handlers: a request that they refuse takes no protocol step.
- Progress streaming and audit forwarding in `handle_execute`: neither touches the table.
- `read_prefs`, `contains_sensitive`, `outcome_to_exit_code`, `job_state_str`: case tables without state.
- The `CannotVerify` reason text: the outcome carries the two key ids instead.
- The wording of the planner's own replies to the model: kept as structured notices. Progress events and the rejection log are not kept.
- The trimming of the intent, the arguments inside a tool call's JSON, `parse_proposed_plan` and the query table: functions of the planner's world.
- Planner.StuckExactly: assumes the documented contract of the state client, that it never reports `PlannerStuck` itself.
- Planner.NoPlanExactly: assumes likewise that it never reports `NoPlanProposed`; Planner.EndsExactly assumes nothing about it.
- CleanOutput.OutputIsClean: assumes that normalisation brings no dangerous character into a text without any; nothing else is known of it.
- JsonReader.CanonicalIsJson: its reader accepts none of the white space that RFC 8259 allows between tokens, which canonical text does not have.
- JobHistory.ListingReadsBack: assumes what the daemon guarantees of its rows, ids of at least 8 characters and plain action names; `created_at` and `risk_level`, which the parser leaves empty, are not entries' fields here.
- ApprovalTtl.FreshComparesDays: for times from 1970-01-01T00:15 on and before the year 10000, the range of SQLite's date functions. The Postgres store is not part of this model.
- UTF-8: well-formed text is modelled by lead and continuation bytes, which admits a few sequences Rust excludes; every theorem holds for them too.
- Sanitize.TruncatedFits: a body can end with three newlines in a row after truncation, because the marker starts with one; the limit on runs is stated for the collapse only.
- The asynchronous framing functions, which repeat the synchronous ones, and the server's own frame limit.
- `audit_forward.rs` sending and back-off, `approval.rs`, `auth.rs`, distribution routing, configuration and user interfaces: small tables or I/O.
