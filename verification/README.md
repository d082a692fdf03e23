# GhostMail, verified

A Dafny model of the parts of GhostMail that keep state or rewrite mail, with proofs of what they
promise over whole runs. The connection pool has one connection, so every SQL statement (or
transaction) is one atomic step; sessions, ticks and crashes come between any two of them. Tables are
maps, IMAP sessions, handlers and background loops are classes whose methods are proved against
functions of the tables, and the theorems are about those functions and about runs of steps.

| file | what it models |
|---|---|
| `RateLimit.dfy` | the token-bucket limiter with background pruning |
| `Backoff.dfy`, `SendQueue.dfy`, `Sender.dfy` | retry delays, the outbound queue as a state machine, and the sender's loop as a run of it |
| `MailStore.dfy`, `Copying.dfy`, `MailDb.dfy` | mailboxes and messages with UIDs; COPY and MOVE; the database, IMAP session and webmail objects |
| `MailRuns.dfy`, `MoveRace.dfy`, `SeqNumbers.dfy` | the commands as runs of the interleaved store; UID sets and sequence numbers with other sessions at work |
| `ExpungeStream.dfy` | the EXPUNGE responses and the client that replays them |
| `Flags.dfy` | flag strings against flag sets |
| `Headers.dfy`, `EmptyLines.dfy`, `HeaderRewriting.dfy` | unfolding and rejoining header sections; where a section ends; the two strippers |
| `Tokenizer.dfy`, `SearchIndex.dfy` | the two tokenizers and the blind index against a scan |
| `ImapSearch.dfy` | SEARCH criteria trees against the conjunction of search keys |
| `AliasQuota.dfy`, `Aliases.dfy` | the check-then-act protocol of alias limits, and the objects that run it |
| `Reaper.dfy` | the expiry reaper on a schedule of ticks |
| `Clock.dfy`, `Collections.dfy`, `Text.dfy` | seconds, small facts on collections, Go's string functions |

## Where the code departs from what it is for

The code is modelled as it is written. For each departure the exact condition is proved, or the failing case.

- EXPUNGE walks from the highest message down and still subtracts the number already deleted. The
  client ends with the server's list exactly when at most one message is deleted
  (`ExpungeStream.WrittenRightIff`, `WrittenWrongExample`). MOVE's stream is always right
  (`DescendingRight`).
- COPY ranges over a Go map. Every order gives a bijection (`Copying.CopyIsBijection`), but COPYUID pairs
  the UIDs rightly exactly when that order was ascending (`CopyUidRightIff`), so for certain only when at
  most one message is selected (`CopyUidAlwaysRightIff`).
- MOVE resolves its message set a second time. Into another mailbox, with nothing in between, that selects
  the same messages (`Copying.MoveIntoOther`). Into the selected mailbox itself a copy survives exactly when
  the set does not name the position, or UID, it gets (`MoveKeepsCopyIff`, `MoveIntoItselfSafeIff`), and `1:*`
  loses everything (`MoveIntoItselfLoses`). With other sessions in between, a MOVE by UID deletes nothing it
  did not select first exactly when its UIDs were given out before and none was still to be used; a MOVE by
  sequence numbers is safe only if it names nothing (`MoveRace.UidMoveSafeIff`, `SeqNumbers.SeqMoveSafeIff`).
- Every command looks sequence numbers up in a listing of its own, not in the one the client was shown. After
  another session's EXPUNGE a number still names the same message exactly when none up to it was expunged, and
  else a later one (`SeqNumbers.ExpungeShiftsIff`); against all other sessions only a command that names
  nothing is safe (`SeqCommandSafeIff`). All positions are kept exactly when what the client was shown is
  still there in order with everything else above it (`PositionsKeptIff`, `PositionsKept`).
- A UID is taken before it is used, so a message can be added below one that is there. It is added above all
  exactly when no message there got its UID in between (`MailStore.AddedHighestIff`, `AdditionsOutOfOrder`).
- The search matcher accepts a message that is in any of several UID sets, looks BODY and TEXT up in the
  whole message and in the case given, and looks at the first field of a name only. Exactly when that makes
  a node wrong is `ImapSearch.NodeRightIff`; `TwoUidSetsExample`, `BodyCaseExample` and `BodyInHeaderExample`
  are inputs for which it is. TEXT strings are right about every message exactly when they have no letters
  (`TextsRightIff`), a BODY string only when it is empty (`BodyRightIff`), a HEADER string never
  (`HeaderNeverAlwaysRight`).
- A header section ends at its first empty line, which is an LF with nothing but CRs before it on the line, the
  very first line included; the strippers look for CRLF CRLF, or else LF LF. A message that keeps a header, none
  of them folded in front, is read afterwards with exactly its other headers and its old body if and only if no
  line before the separator is empty, or there is no separator and nothing to strip
  (`HeaderRewriting.AuthStripReadsPlainIff`, `StripReadsPlainIff`; `AuthStripReadsIff` and `StripReadsIff` give
  the condition for all messages: one that loses its only header gets a line more in its body). In
  `A:1 LF CR LF x CRLF CRLF y` the body line x becomes a header (`BodyRewrittenExample`, `EarlierEmptyLine`,
  `LeadingEmptyLine`). An Authentication-Results header survives exactly for want of a separator
  (`SpoofSurvivesIff`), as in `Authentication-Results:x LF CR LF b` (`SpoofSurvivesExample`).
- The index tokenizer keeps `.` and `@`, the query tokenizer does not. They agree exactly on texts whose
  dots and at-signs stand alone (`Tokenizer.TokenizersAgreeIff`). In general a query word is found exactly when
  it is no stop word of the index and stands in the text with no `.` or `@` beside it
  (`Tokenizer.QueryWordHitIff`, `SearchIndex.ScanHitIff`): not at the end of a sentence (`SentenceEndMissed`),
  nor in an address (`AddressNeverFound`). A query with a stop word known to the index alone finds nothing
  (`StopWordHitsNothing`).
- An item is left `sending` for ever, and never retried, exactly when a crash hit while it was handled or its
  outcome could not be recorded (`SendQueue.StuckIff`, `SettledForever`).
- Alias limits are checked before they are counted: n sessions can pass a limit by n - 1, no more, and
  they can reach that (`AliasQuota.QuotaBound`, `QuotaBoundMet`, `AliasBoundMet`). A limit holds in all runs
  exactly when there is at most one session, or no alias may be made (`QuotaHoldsIff`).
- Pruning is invisible exactly when a stale bucket is full (`RateLimit.PruningInvisibleIff`); the staleness
  test is strict, which gives the bound its extra nanosecond. Every preset meets it.

## Model

| member | source | states |
|---|---|---|
| RateLimit.InvKept | internal/ratelimit/ratelimit.go:40-87 | tokens stay in [0, burst] through every call, reset and cleanup pass |
| RateLimit.LevelRises | internal/ratelimit/ratelimit.go:51-57 | a bucket's level never falls by waiting, rises by at most what the time earns, and never passes burst |
| RateLimit.LevelAfter | internal/ratelimit/ratelimit.go:59-63 | one event moves the level of a key only by the one token an allowed call takes, pruning included when stale buckets are full |
| RateLimit.WindowBound | internal/ratelimit/ratelimit.go:25-64 | in every run, every window lets through at most burst + rate * length / interval calls of a key |
| RateLimit.ExactAdmission | internal/ratelimit/ratelimit.go:39-64 | after any run a call is let through if and only if every window ending now stays within that bound: the limiter is as permissive as the bound allows |
| RateLimit.StaleIsFull | internal/ratelimit/ratelimit.go:79-83 | under the exact condition a bucket that may be pruned has refilled, so a missing bucket means the same |
| RateLimit.SameAnswers | internal/ratelimit/ratelimit.go:74-87 | a limiter that prunes and one that does not answer every call of every run alike |
| RateLimit.PruningInvisibleIff | internal/ratelimit/ratelimit.go:74-87 | no run can tell whether pruning happens if and only if rate * (10 min + 1 ns) >= burst * interval; otherwise a probing run tells |
| RateLimit.PresetsPruneInvisibly | internal/ratelimit/ratelimit.go:91-109 | all four presets prune invisibly |
| RateLimit.Limiter.AllowCall | internal/ratelimit/ratelimit.go:40-64 | the answer and the new bucket map of Allow |
| RateLimit.Limiter.CleanupPass | internal/ratelimit/ratelimit.go:77-86 | deleting while walking removes exactly the stale buckets |
| Backoff.DelayExactIff | internal/smtp/sender.go:235-236 | the 64-bit delay is base * 2^attempts if and only if that fits |
| Backoff.NoDelayOverflows | internal/smtp/sender.go:228-237 | one bound on the last retry rules overflow out for every retry |
| Backoff.DelaysDouble | internal/smtp/sender.go:235-236 | successive delays double |
| Backoff.DelaysAddUp | internal/smtp/sender.go:235-236 | the first n delays sum to base * (2^n - 1) |
| SendQueue.InvKept | internal/smtp/sender.go:96-118 | every step keeps rows, attempts, the sender's copies and the log of deliveries consistent |
| SendQueue.DeliverySafety | internal/smtp/sender.go:103-117 | whatever crashes and failed updates happen: at most MaxRetries + 1 deliveries of an item, none after a success, and a pending row's attempts equal its deliveries and stay within MaxRetries |
| SendQueue.SentIffAccepted | internal/smtp/sender.go:103-117 | in every run, crashes included, a row that is not being sent says sent if and only if the remote host accepted the message |
| SendQueue.BecomesSentIff | internal/storage/queue.go:84-88 | a row becomes sent if and only if the outcome of an accepted delivery is recorded; nothing else of it changes |
| SendQueue.BecomesFailedIff | internal/smtp/sender.go:220-233 | a row becomes failed if and only if the outcome of a failed delivery is recorded and its attempts had reached MaxRetries or the clock was past its creation by more than the dead-letter age; error kept, attempt counted |
| SendQueue.RescheduledIff | internal/smtp/sender.go:235-241 | otherwise a recorded failure makes it pending again, due base * 2^attempts after the clock reading, to the second, when no delay overflows 64 bits; error kept, attempt counted |
| SendQueue.SettledForever | internal/storage/queue.go:78-108 | sent, failed and stranded rows never change again and are never delivered again |
| SendQueue.StuckIff | internal/smtp/sender.go:103-117 | after any run an item is left `sending` by a sender that no longer works on it if and only if it was so before, or some step crashed while handling it or failed to record its outcome |
| SendQueue.CrashStrands | internal/smtp/sender.go:103-117 | an item being delivered at a crash is stuck and never delivered again |
| SendQueue.RescheduleBound | internal/smtp/sender.go:220-239 | a rescheduled item is due between one base delay from now and created + deadLetterAfter + longest delay + the gap of the two clock readings |
| SendQueue.RetryHorizon | internal/smtp/sender.go:220-239 | that upper bound holds of every rescheduled row in every run |
| SendQueue.AttemptsConserved | internal/smtp/sender.go:103-117 | claims of a run plus the attempts left at its end never exceed those left at its start plus MaxRetries + 1 for each new item |
| SendQueue.DequeueTakesOldest | internal/storage/queue.go:41-50 | a dequeue empties the rows due by t or takes `limit` of them, whatever the order of ties |
| SendQueue.BatchAre | internal/storage/queue.go:41-50 | a batch holds pending rows that are due, and all of them if it is not full |
| SendQueue.NoStarvation | internal/smtp/sender.go:96-118 | a pending item due at t is delivered within ceil(rank / limit) complete ticks once the clock has passed t; retries and new items never cut in |
| SendQueue.Drains | internal/smtp/sender.go:96-118 | without new items, as many ticks as there are attempts left leave nothing pending |
| Sender.Queue.EnqueueMessage | internal/storage/queue.go:30-38 | one new pending row, due at once |
| Sender.Queue.DequeueMessages | internal/storage/queue.go:41-75 | a legal batch: due rows only, earliest first, nothing left out is earlier, as many as the limit allows |
| Sender.OutboundSender.HandleFailure | internal/smtp/sender.go:220-244 | the row afterwards: failed, with the error and one attempt more, when the attempts had reached MaxRetries or the age the dead-letter limit; else pending, due Delay(attempts) after the clock reading; unchanged if the update fails |
| Sender.OutboundSender.ProcessQueue | internal/smtp/sender.go:96-118 | one tick is exactly a legal run of the state machine from idle to idle, for every batch, delivery outcome and database failure |
| MailStore.InvKept | internal/storage/messages.go:29-58 | under any interleaving live UIDs and reserved UIDs of a mailbox are pairwise distinct, and all are below uid_next |
| MailStore.UniqueNeverFires | internal/storage/messages.go:29-58 | in every reachable state the UID a session holds is taken by no message and held by no other session: UNIQUE(mailbox_id, uid) cannot fire |
| MailStore.UidsAscend | internal/storage/mailboxes.go:80-103 | between any two allocations in a mailbox, whatever happens between, the later UID is greater: none is given out twice |
| MailStore.AddedHighestIff | internal/storage/messages.go:28-58 | a message added under a UID taken earlier is above all that are in the mailbox, as section 2.3.1.1 of RFC 3501 wants, if and only if no message there got its UID in between |
| MailStore.SerialAdditionsAscend | internal/storage/messages.go:28-58 | in every run in which sessions take turns on each mailbox every step that adds a message gives it a UID above all that are there, and so will every UID still held |
| MailStore.AdditionsOutOfOrder | internal/storage/messages.go:28-58 | two sessions that do not take turns: UID 2 is in the mailbox before UID 1 is added |
| MailStore.NoLoss | internal/imap/fetch.go:147-184 | in every run from an empty store, every message ever stored is there with its content, or was itself removed by its deletion when condemned, by a sweep after its expiry or with its mailbox, or was moved by a MOVE, whenever that deletes it, and then a later message got its content |
| MailStore.LatestNotLost | internal/imap/fetch.go:255-288 | so the latest message that ever had some content is there, or was itself removed by one of those steps: a MOVE alone never loses content |
| MailStore.CondemnedForAReason | internal/webmail/api_message.go:212-242 | a condemned message was condemned by a step of the run, and at that moment it had the flag \Deleted, or was in a mailbox named Trash or of special use \Trash, or its owner had no such mailbox |
| MailStore.VerdictIs | internal/webmail/api_message.go:212-242 | a webmail delete erases if and only if the mailbox is named Trash, or the user has no mailbox of special use \Trash or that name, or this one is the last such in the listing; else it moves to the last such |
| MailStore.MoveKeepsMessages | internal/storage/messages.go:203-212 | neither step of MoveMessage, nor stopping between them, adds, removes or alters a message other than by moving the one |
| MailRuns.ExpungeIsRun | internal/imap/fetch.go:147-184 | EXPUNGE, stopped anywhere, is a run of the store that deletes only messages it listed with \Deleted |
| MailRuns.HandleDeleteIsRun | internal/webmail/api_message.go:196-248 | a webmail delete is a run of the store: it erases only what it found in trash, or without a trash mailbox, and otherwise takes a UID and moves |
| MailRuns.StoreIsRun | internal/storage/messages.go:28-58 | StoreMessage is a run: take a UID, use it |
| MailRuns.MoveMessageIsRun | internal/storage/messages.go:203-212 | MoveMessage is a run: take a UID, use it |
| MailRuns.CopyIsRun | internal/imap/fetch.go:211-235 | COPY, in any order, is a run of such insertions |
| MoveRace.UidMoveSafeIff | internal/imap/fetch.go:255-288 | a MOVE by UID deletes nothing it did not select, and so copy, whatever other sessions do after its copies, if and only if its UIDs had been given out before and none was still to be used for another message; then it is safe wherever its steps fall among theirs |
| MoveRace.UidMoveIsAllowed | internal/imap/fetch.go:255-288 | after the copies of a MOVE by such UIDs and any steps of other sessions, everything its second listing selects has a recorded copy: its deletions are steps that lose nothing |
| SeqNumbers.SeqMoveSafeIff | internal/imap/fetch.go:255-288 | a MOVE by sequence numbers is safe in that sense if and only if it names no position |
| SeqNumbers.SeqCommandSafeIff | internal/imap/fetch.go:109-145 | a command by sequence numbers hits only messages that the client, by the listing it was shown, named, whatever other sessions do meanwhile, if and only if it names no position |
| SeqNumbers.ExpungeShiftsIff | internal/imap/fetch.go:186-253 | after another session's EXPUNGE a number names the message the client means if and only if neither that one nor any before it was expunged; otherwise it names a later one, or none |
| SeqNumbers.PositionsKeptIff | internal/imap/fetch.go:300-316 | every position the client was shown holds the same message in the new listing if and only if these are still there in their order and every other message has a higher UID |
| SeqNumbers.PositionsKept | internal/imap/fetch.go:109-145 | and they are after every run that leaves those messages alone and whose additions get the highest UID |
| ExpungeStream.DescendingReplays | internal/imap/fetch.go:273-288 | stopped anywhere, a descending stream leaves a replaying client with exactly the server's list in order (section 7.4.1 of RFC 3501) |
| ExpungeStream.DescendingRight | internal/imap/fetch.go:265-288 | MOVE's whole stream replays to the remaining list, for every subset removed |
| ExpungeStream.WrittenMisses | internal/imap/fetch.go:157-181 | EXPUNGE's stream never removes the second message deleted from the client's list |
| ExpungeStream.WrittenRightIff | internal/imap/fetch.go:157-181 | EXPUNGE's stream replays to the remaining list if and only if at most one message is deleted |
| ExpungeStream.WrittenWrongExample | internal/imap/fetch.go:172 | both of two messages deleted give the numbers 2, 0, which a client cannot replay |
| Copying.ListingUnique | internal/storage/messages.go:94-130 | the listing of a mailbox in ascending UID order is unique |
| Copying.ListingAfterErase | internal/imap/fetch.go:157-181 | what EXPUNGE or MOVE leaves of a listing is, in order, the listing of the mailbox afterwards |
| Copying.CopyIsBijection | internal/imap/fetch.go:211-235 | for every order of iteration the copies get exactly the block of UIDs from uid_next on, one for each selected message, with equal content, flags and expiry, and nothing else changes |
| Copying.CopyUidRightIff | internal/imap/fetch.go:241-252 | COPYUID (section 3 of RFC 4315) pairs every source with its copy if and only if the sources were copied in ascending order |
| Copying.CopyUidAlwaysRightIff | internal/imap/fetch.go:211-252 | COPYUID pairs rightly whatever the order of the map if and only if at most one message is selected |
| Copying.CopyThenEraseIsMove | internal/imap/fetch.go:255-291 | copying all and then deleting all is moving one by one |
| Copying.MoveIntoOther | internal/imap/fetch.go:255-291 | into another mailbox the second resolution finds the same messages and MOVE moves exactly the selected ones |
| Copying.MoveIsRun | internal/imap/fetch.go:255-291 | such a MOVE is a run of the interleaved store, so what is proved of runs holds of it |
| Copying.MoveKeepsCopyIff | internal/imap/fetch.go:255-291 | MOVE into the selected mailbox keeps the copy of the k-th message if and only if the set does not name the k-th position, or UID, after those the mailbox has |
| Copying.MoveIntoItselfSafeIff | internal/imap/fetch.go:255-291 | a whole MOVE into the selected mailbox loses nothing if and only if the set names none of the next positions, or UIDs, as many as it copies |
| Copying.MoveIntoItselfLoses | internal/imap/fetch.go:255-291 | MOVE 1:* into the selected mailbox leaves the mailbox empty |
| MailDb.Database.NextUID | internal/storage/mailboxes.go:80-103 | the old uid_next, which is incremented; an error for an unknown mailbox |
| MailDb.Database.StoreMessage | internal/storage/messages.go:28-58 | the message under the next UID; with sessions one after the other the insertion cannot be rejected |
| MailDb.Database.MoveMessage | internal/storage/messages.go:203-212 | the same row under the next UID of the destination |
| MailDb.Database.DeleteExpiredMessages | internal/storage/messages.go:144-152 | exactly the messages with a date at or before now go, and their number is returned |
| MailDb.Database.ListMessages | internal/storage/messages.go:94-130 | all messages of the mailbox and no others, in ascending UID order |
| MailDb.ImapSession.Expunge | internal/imap/fetch.go:147-184 | when it succeeds, gone are exactly the messages of the selected mailbox with the flag \Deleted and, for UID EXPUNGE, a UID in the set; stopped by a failing deletion, only such; all others unchanged; the stream is the written one |
| MailDb.ExpungedAre | internal/imap/fetch.go:147-184 | the same of the rows left, wherever the expunge stopped |
| MailDb.ImapSession.ResolveNumSet | internal/imap/fetch.go:295-316 | exactly the selected messages under their sequence numbers, for both kinds of set |
| MailDb.ImapSession.Copy | internal/imap/fetch.go:186-253 | the selected messages copied in some order, their UIDs and the block of new UIDs in that order; when storing a copy fails, those copied before remain |
| MailDb.ImapSession.Move | internal/imap/fetch.go:255-291 | copies, or those before a failure; then the set resolved again is deleted with the descending stream, down to a failing deletion |
| MailDb.ImapSession.StoreCommand | internal/imap/fetch.go:109-145 | the flags of exactly the selected messages become what the operation makes of them, in any order of iteration, or of some of them when an update fails |
| MailDb.Webmail.HandleMove | internal/webmail/api_message.go:160-194 | the message moves to a mailbox of the user's of that name, under its next UID; if there is none nothing changes |
| MailDb.Webmail.HandleUpdateFlags | internal/webmail/api_message.go:118-152 | the new flags are, as a set, union with the added and then difference with the removed; only that row changes |
| MailDb.Webmail.HandleDelete | internal/webmail/api_message.go:196-248 | the message is gone if and only if its mailbox is named Trash, or the user has no mailbox of special use \Trash or that name, or its mailbox is the last such in the listing; else it is, otherwise unchanged, in the last such; no other message changes |
| MailDb.DeletedOrMoved | internal/webmail/api_message.go:212-242 | the same of the tables before and after |
| Flags.HasFlagIsMembership | internal/storage/messages.go:247-255 | HasFlag is membership in the set of case-folded fields |
| Flags.AddIsUnion | internal/storage/messages.go:257-266 | AddFlag is union, whatever the strings |
| Flags.RemoveIsDifference | internal/storage/messages.go:268-278 | RemoveFlag is difference, whatever the strings |
| Flags.FlagStringsRefineSets | internal/imap/fetch.go:331-350 | after any sequence of STORE operations on well-formed flags every HasFlag answer is that of assign, union and difference on sets (section 6.4.6 of RFC 3501) |
| Flags.ParseInvertsJoinIff | internal/imap/fetch.go:318-339 | parseFlags gives back the joined list if and only if no flag is empty or has white space |
| Flags.RemoveFlagFrom | internal/storage/messages.go:268-278 | the loop computes RemoveFlag |
| Flags.ApplyStoreFlags | internal/imap/fetch.go:331-350 | the loops compute the stored string of each operation |
| Headers.SplitInvertsJoin | internal/smtp/headers.go:91-116 | splitting what was joined from well-formed logical lines gives them back |
| Headers.SplitJoinSplit | internal/smtp/headers.go:91-116 | split, join, split is split, for every header section |
| Headers.SplitKeepsLines | internal/smtp/headers.go:91-116 | rejoining keeps every non-blank line of a section, in order |
| Headers.FoldsBelong | internal/smtp/headers.go:91-116 | lines that begin with a space or tab, and only those, are folded into the header before them; only at the very start can they lack one |
| Headers.EndFoundAgain | internal/smtp/headers.go:13-22 | before a rewritten section the separator is found where it was: no earlier one appears |
| Headers.RewriteParses | internal/smtp/headers.go:12-52 | a message with its section rewritten from well-formed headers parses into those headers and the same rest |
| Headers.SplitHeaderLines | internal/smtp/headers.go:91-116 | the loop with `current` and `result` computes the logical lines, folded lines included (internal/dkim/verifier.go:109-133 is the same code) |
| EmptyLines.WrittenReadsIff | internal/smtp/headers.go:13-52 | what a stripper writes is read with the headers meant and the old rest if and only if its section holds no empty line and comes out beginning with none; or nothing was to be kept before the first empty line and the section came out as what follows that |
| HeaderRewriting.AuthStrippedExactly | internal/dkim/verifier.go:79-107 | in the section up to the separator exactly the Authentication-Results headers go with their folded lines, the others keep their order, everything from the separator on is kept |
| HeaderRewriting.AuthStripReadsIff | internal/dkim/verifier.go:79-107 | when a reader of the stripped message, who ends the headers at the first empty line, finds exactly its other headers and its old body: the condition for every byte string |
| HeaderRewriting.AuthStripReadsPlainIff | internal/dkim/verifier.go:79-107 | of a message that keeps a header, none folded in front: if and only if no line before the separator is empty, or there is no separator and nothing to strip |
| HeaderRewriting.SpoofSurvivesIff | internal/dkim/verifier.go:82-93 | a reader finds an Authentication-Results header afterwards if and only if he found one before and there is no separator |
| HeaderRewriting.EarlierEmptyLine | internal/dkim/verifier.go:82-93 | a message with an empty line right after its first header, and the separator only later, is not read as meant |
| HeaderRewriting.LeadingEmptyLine | internal/dkim/verifier.go:82-93 | nor is one whose first line is empty and of whose later lines a header is left first |
| HeaderRewriting.BodyRewrittenExample | internal/dkim/verifier.go:82-93 | such a message: a body line becomes a header |
| HeaderRewriting.SpoofSurvivesExample | internal/dkim/verifier.go:82-93 | an empty line of LF and then CRLF is no separator, and the header survives |
| HeaderRewriting.AuthStripIdempotent | internal/dkim/verifier.go:79-107 | stripping twice is stripping once, for every byte string |
| HeaderRewriting.AuthResultsNamed | internal/dkim/verifier.go:95-103 | the headers that go are those named Authentication-Results, in any case, with the colon right behind |
| HeaderRewriting.StripExistingAuthResults | internal/dkim/verifier.go:79-107 | the method computes the stripped message |
| HeaderRewriting.MessageIDLineIs | internal/smtp/headers.go:40-46 | the generated Message-ID line is recognised as one, is never itself stripped and is one unfolded line |
| HeaderRewriting.StrippedExactly | internal/smtp/headers.go:12-52 | exactly the targeted headers go with their folded lines, the first Message-ID is replaced or one is added, the others keep their order, the rest is kept byte for byte; without a separator nothing is stripped |
| HeaderRewriting.StrippedNames | internal/smtp/headers.go:61-88 | the headers that go, by name in any case: Received, User-Agent and X-Mailer, X-Originating-IP and X-Forwarded-For as configured, X-Ghostmail-Internal and X-Sender-IP always |
| HeaderRewriting.NoColonStays | internal/smtp/headers.go:83-87 | a line without a colon stays |
| HeaderRewriting.MessageIDReplaced | internal/smtp/headers.go:35-48 | the generated line takes the place of the first Message-ID, or comes last if there is none |
| HeaderRewriting.MessageIDsDiffer | internal/smtp/headers.go:118-123 | different numbers make different Message-IDs |
| HeaderRewriting.HostFitsIff | internal/smtp/headers.go:35-48 | a stripped message parses into the headers written, for every message, if and only if the generated Message-ID line splits into itself |
| HeaderRewriting.PlainHostFits | internal/smtp/headers.go:40-46 | it does for every host name without a line feed |
| HeaderRewriting.StripReadsIff | internal/smtp/headers.go:12-52 | when a reader of the stripped message finds exactly the headers meant and the old body: the condition for every byte string |
| HeaderRewriting.StripReadsPlainIff | internal/smtp/headers.go:12-52 | of a message that keeps a header, none folded in front: if and only if no line before the separator is empty, or there is no separator and nothing to change |
| HeaderRewriting.StripIdempotent | internal/smtp/headers.go:12-52 | stripping twice is stripping once with the second Message-ID number |
| HeaderRewriting.HeaderStripper.GenerateID | internal/smtp/headers.go:118-123 | a 64-bit counter, incremented and returned |
| HeaderRewriting.HeaderStripper.StripHeaders | internal/smtp/headers.go:12-52 | the stripped message with the next number; the counter moves only when a Message-ID is written |
| Tokenizer.TokenizersAgreeIff | internal/crypto/searchindex.go:73-123 | the index tokens are the query tokens less the index-only stop words, in the same order, if and only if every '.' and '@' stands alone |
| Tokenizer.IndexedIff | internal/crypto/searchindex.go:73-101 | indexed are exactly the words that stand alone in the text, a dot or at-sign being part of a word, less stop words and single characters |
| Tokenizer.QueryWordHitIff | internal/webmail/api_search.go:111-137 | a word of any query is indexed of a text if and only if it is no stop word of the index and stands in the text with no dot or at-sign beside it |
| Tokenizer.SentenceEndExample | internal/crypto/searchindex.go:78-81 | the last word of a sentence is a query word of it but not indexed |
| Tokenizer.AddressNeverFound | internal/crypto/searchindex.go:78-81 | any word with a dot or at-sign, such as an address, is one index token, in lower case, that no query produces |
| Tokenizer.TokenizeForIndex | internal/crypto/searchindex.go:73-101 | the loop with its `seen` map computes the index tokens |
| Tokenizer.TokenizeQuery | internal/webmail/api_search.go:111-137 | the loop with its `seen` map computes the query tokens |
| SearchIndex.SearchTokensAre | internal/crypto/searchindex.go:24-56 | the tokens of a message are, without repetition, the hashes of its index words by field: dedup has nothing left to remove |
| SearchIndex.StoredByField | internal/crypto/searchindex.go:26-56 | a token of field 0, 1, 2 or 3 is stored if and only if its word is an index word of the subject, the sender, the recipients or the body |
| SearchIndex.GenerateSearchTokens | internal/crypto/searchindex.go:26-56 | the loops compute exactly that |
| SearchIndex.DedupTokens | internal/crypto/searchindex.go:125-142 | first occurrences, in order |
| SearchIndex.QueryHashesAre | internal/crypto/searchindex.go:58-63 | the query hashes are those of the query tokens under the key: normalizing them changes nothing |
| SearchIndex.RowsEqualScan | internal/storage/searchindex.go:80-105 | the rows of a message have all query hashes if and only if a scan of its text under the same key finds every query word |
| SearchIndex.ScanHitIff | internal/webmail/api_search.go:35-49 | a scan hits a message if and only if the key is its own and each query word is no stop word of the index and stands alone in some field |
| SearchIndex.ScanHitByParts | internal/webmail/api_search.go:35-49 | a scan hits a message if and only if the key is its own and each query word is no stop word of the index and stands alone in its subject, sender, recipients or body |
| SearchIndex.StopWordHitsNothing | internal/webmail/api_search.go:35-49 | a query with a stop word of the index hits no message at all |
| SearchIndex.OwnWordsHitMessage | internal/webmail/api_search.go:35-49 | in a field whose dots stand alone, a query of its own words hits the message if and only if none is a stop word of the index |
| SearchIndex.SentenceEndMissed | internal/webmail/api_search.go:35-49 | the query "world" misses a message whose body is "hello world." |
| SearchIndex.Intersect | internal/storage/searchindex.go:113-125 | without repetition, exactly the common ids |
| SearchIndex.Index.StoreSearchTokens | internal/storage/searchindex.go:8-33 | exactly the message's token rows are added |
| SearchIndex.Index.Deliver | internal/smtp/session.go:274-289 | the message is stored and, with a search key, indexed under its id, so that the index stays exact |
| SearchIndex.Index.DeleteSearchTokens | internal/storage/searchindex.go:107-111 | exactly the message's rows go |
| SearchIndex.Index.SearchByToken | internal/storage/searchindex.go:41-78 | without repetition, exactly the messages with the hash in the field, or in any field |
| SearchIndex.Index.SearchByTokens | internal/storage/searchindex.go:80-105 | iterated intersection with early exit gives, without repetition, exactly the messages that have every hash |
| SearchIndex.Index.SearchMessages | internal/webmail/api_search.go:35-53 | the index answers a query exactly as a scan of every indexed message would |
| SearchIndex.Index.HandleSearch | internal/webmail/api_search.go:16-108 | at most fifty live messages of the user in the chosen mailbox, all hits of the scan, and all of them when fewer than fifty; a leftover row never surfaces; the error cases |
| ImapSearch.MatchesCriteria | internal/imap/search.go:72-169 | the early-return recursion terminates on every NOT/OR tree and computes the written meaning |
| ImapSearch.CheckUids | internal/imap/search.go:119-131 | any one of the UID sets is enough |
| ImapSearch.MatcherIsConjunction | internal/imap/search.go:72-169 | the matcher computes the conjunction of search keys of section 6.4.4 of RFC 3501, with dates as instants and the body beginning behind the first empty line, for every tree and every message about which no node answers a key wrongly |
| ImapSearch.NodeRightIff | internal/imap/search.go:72-169 | with right branches a node is right about a message if and only if some key fails both as written and as meant, or it wrongly rejects by one key and wrongly accepts by another, or it does neither: rejects by a string found in another case only or in a later header field, accepts by disagreeing UID sets or a BODY string outside the body |
| ImapSearch.OneSetAgrees | internal/imap/search.go:119-131 | with at most one UID set in each node only strings can go wrong |
| ImapSearch.NoStringsRight | internal/imap/search.go:134-151 | and without strings nothing does |
| ImapSearch.BodyCaseExample | internal/imap/search.go:140-145 | BODY "H" misses a message whose body is "h" |
| ImapSearch.BodyInHeaderExample | internal/imap/search.go:140-145 | BODY "A" finds a message that has it in its header only |
| ImapSearch.TextsRightIff | internal/imap/search.go:147-151 | TEXT strings are right about all messages if and only if none of them has a letter |
| ImapSearch.BodyRightIff | internal/imap/search.go:140-145 | a BODY string is right about all messages if and only if it is empty |
| ImapSearch.HeaderNeverAlwaysRight | internal/imap/search.go:134-139 | a HEADER string is wrong about some message, whatever the field and the string |
| ImapSearch.MidnightsCompareDays | internal/imap/search.go:89-95 | comparing with the first instant of a day is comparing days, in UTC |
| ImapSearch.UidSetsRightIff | internal/imap/search.go:119-131 | several UID sets alone are right for all messages if and only if they are the same set |
| ImapSearch.TwoUidSetsExample | internal/imap/search.go:119-131 | UID 1 UID 2 finds message 1 |
| ImapSearch.Search | internal/imap/search.go:13-68 | Count, Min, Max and All describe the one set of matching numbers, Min its least and Max its greatest; what is not asked for stays zero |
| ImapSearch.HitsAre | internal/imap/search.go:23-33 | by sequence number a hit is the 1-based position of a matching message in the listing, by UID its UID, and every matching message is hit |
| AliasQuota.QuotaBound | internal/smtp/session.go:181-222 | with n sessions, a message count (or a user's aliases) and the sessions about to raise it stay within the limit + n - 1; with one session the limit is never passed |
| AliasQuota.QuotaBoundMet | internal/smtp/session.go:211-222 | for every limit and every n some run reaches limit + n - 1 messages |
| AliasQuota.AliasBoundMet | internal/alias/generator.go:25-60 | and for every limit and every n some run gives a user limit + n - 1 aliases |
| AliasQuota.QuotaHoldsIff | internal/smtp/session.go:181-222 | no run passes the limit of an alias, and none that of a user, if and only if there is at most one session or no alias may be made |
| AliasQuota.AdmissionsConserved | internal/storage/aliases.go:82-86 | as long as an alias lives every message admitted is counted, about to be, or one whose increment failed |
| AliasQuota.InactiveForGood | internal/storage/aliases.go:134-138 | an inactive alias is never active again and is sent nothing more |
| AliasQuota.InactiveForAReason | internal/alias/generator.go:88-99 | an alias is inactive only after reaching its limit or expiring |
| Aliases.SplitAddress | internal/alias/generator.go:64-68 | local part and domain around the first at-sign, or none if there is no at-sign |
| Aliases.AliasStore.ResolveAlias | internal/storage/aliases.go:50-79 | a row with that address if there is one |
| Aliases.AliasStore.ListAliases | internal/storage/aliases.go:88-126 | exactly the user's aliases, each once |
| Aliases.AliasStore.CreateAlias | internal/storage/aliases.go:23-48 | one new active row with count 0, or nothing when the address is taken |
| Aliases.FindRecipient | internal/smtp/session.go:157-228 | each answer of delivery; an alias forwards to user u if and only if it is active, not past its expiry, below its limit if it has one, u owns it and is known, and then its count grows by one; a full one is turned off |
| Aliases.Generator.Resolve | internal/alias/generator.go:62-111 | the same answers of Resolve, which also deactivates an expired alias |
| Aliases.Generator.Create | internal/alias/generator.go:25-60 | below the user's limit and at a free address one new active alias with count 0, the expiry ttl from now if ttl is positive and the limit if positive; else nothing |
| Aliases.SerialIsRun | internal/alias/generator.go:79-102 | what these methods do to an alias is a run of the protocol |
| Aliases.SerialQuotaExact | internal/smtp/session.go:202-222 | deliveries one after another: an alias admits exactly those in time up to its limit and is turned off exactly when one more comes in time |
| Aliases.ForwardsAreAdmissions | internal/smtp/session.go:181-228 | over any sequence of messages, to whatever recipients, those forwarded for an alias are exactly the admitted ones, and its row is what they make of it |
| Aliases.ForwardsWithinLimit | internal/smtp/session.go:211-222 | so the messages counted and forwarded never pass its limit |
| Reaper.ExpiryWrittenOnce | internal/expiry/reaper.go:110-118 | in every run a date, once written, stays until the message goes |
| Reaper.RunTracks | internal/expiry/reaper.go:59-126 | whatever sessions do, a message that stays in a mailbox of that name lives exactly as the reaper's own steps say |
| Reaper.RemovalWindow | internal/expiry/reaper.go:59-90 | with ticks at most `gap` apart, a message entering Trash or Spam at e is removed no earlier than e + ttl to the second and no later than e + ttl + 2 * gap, up to the lag between reading the clock and the statement; and it is removed |
| Reaper.StepsRemove | internal/expiry/reaper.go:59-126 | the schedule removes the message if and only if its steps, taken in order, do |
| Reaper.RunFollowsSchedule | internal/expiry/reaper.go:59-126 | in a run of the whole store whose reaper steps are those of a schedule, startup included, the message is gone at the end if and only if the schedule removes it |
| Reaper.RemovalInRuns | internal/expiry/reaper.go:59-126 | in such a run the message is there as long as the last sweep is before its ttl is over, to the second less the lag, and gone once a sweep has read a clock one gap past it |
| Reaper.TickIsRun | internal/expiry/reaper.go:72-108 | a tick of the reaper is a run of the store |
| Reaper.Reaper.SetTTLForMailbox | internal/expiry/reaper.go:110-126 | every message without a date in a mailbox of that name gets the date ttl from now, in seconds; no other changes |
| Reaper.Reaper.ApplyMailboxTTLs | internal/expiry/reaper.go:100-108 | Trash and then Spam, each only with a positive ttl |
| Reaper.Reaper.OneTick | internal/expiry/reaper.go:72-76 | a sweep, then the dates |

## Modelling choices

- Characters stand for bytes and case folding is that of ASCII, for flags, headers and tokens.
- The limiter's float64 counts are reals; durations are integers of nanoseconds; `math.Pow(2, k)` is an integer
  power, converted as on amd64 when it is out of range. A limiter has a positive interval and no negative rate or burst.
- Clock readings, delivery outcomes and database failures are parameters. HMAC is a constructor: injective for
  each key and different for different keys.
- A listing of a user's mailboxes is in any order; the program's is by name.
- UIDs and sequence numbers are unbounded; an EXPUNGE number of zero or below names no message.
- `MailStore.Event.Use` has no foreign-key failure; `Abandon` has the same effect on the tables. A message is
  `condemned` when a session has looked at it and decided to delete it, and `replaced` when a MOVE is to delete it
  after copying it; the deletion is a later step.
- A search limited to an unknown mailbox is not limited at all, and copies made by IMAP have no token rows, so they are not found.
- The matcher reads no sequence sets and no MODSEQ; header fields and sent dates of a message are given by a function.
  A search date is an instant, as the program has it, not a day in the time zone of the message.
- Alias counters that fail to be incremented do not stop a delivery, as in the source (`AliasQuota.Event.Fail`).

## Left out

- Cryptography: AES-GCM, X25519, HKDF, Argon2id, OpenPGP and DKIM signing and verification are library calls.
- SMTP dialling, MX lookup and STARTTLS: `deliver` is an arbitrary outcome.
- IMAP FETCH, with its automatic \Seen, and the trackers that notify other sessions.
- A failing listing or dequeue, which changes nothing.
- The methods of `MailDb` run alone; what other sessions do between their steps is in `MailStore`, `MailRuns` and `MoveRace`.
- Reaper.RemovalInRuns: a message that is moved, or that had a date when it entered, is not followed.
- SendQueue.NoStarvation: assumes no crash and no failing claim during the ticks counted, as a crash strands items.
- Queue maintenance (`DeleteQueueItem`, `CleanSentMessages`, `QueueSize`), VACUUM and message counts.
- The session's own fields (`Rcpt`, `Reset`), `splitMessage`, and the parsing of expiry headers: a draft carries its date.
- Alias addresses drawn at random, ghostctl's creation of aliases without a limit check, and sender authorisation in `Mail`.
- Users, domains, audit log, PGP keyring, cookies, configuration, templates and schema migration.
- Unicode case folding and letters outside ASCII.
