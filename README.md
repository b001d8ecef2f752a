# Team mailbox coordination, modelled in Dafny

`scripts/vc-teams.js` is a command-line tool for a team of agents that
coordinate through files under a teams directory. Each team has:

- a config, holding the roster, the lead's agent id and a `dedupedMessages` statistic;
- one inbox per agent, an ordered list of message envelopes;
- a request ledger (`requests.json`) of requests that are pending or resolved.

Updates of an existing inbox, of the request ledger and of an existing team's
config go through an advisory lock file (`withLock`). Other writes are not
locked: the creation of an empty inbox or ledger (`ensureMailbox`,
`ensureRequestsFile`), the first config write of `create`, the removal of the
team directory by `delete` and the removal of an inbox by `remove-member`.

This project models that core as one in-memory directory of teams, with an
abstract millisecond clock:

- `Outcomes`, `Text`, `Names`, `Options`: result types, the JavaScript string
  primitives the script relies on, name sanitization, agent ids, agent colours,
  the argv scanner, `pickOption`/`requiredOption` and `parseBoolean`.
- `Envelopes`:
  - the fixed message-type set;
  - type normalisation;
  - the de-duplication key, with its digest as a parameter;
  - building and validating an envelope.
- `Mailbox`:
  - the de-duplicating append of `appendMailbox`;
  - read marking;
  - the retention filter of `prune`;
  - per-inbox counts.
- `Ledger`: opening, resolving and listing pending requests.
- `Roster`: the roster guards of `create`, `add-member`, `remove-member` and `delete`, and recipient expansion.
- `Protocol`: the validation order of `send`, its ledger step, and its delivery loop.
- `Locking`: the retry state machine of `withLock`, over a sequence of acquisition outcomes, as the class `LockTable`.
- `Polling`: the loops of `await` and `watch`, over sequences of observations.
- `Store`: the class `TeamStore`, whose fields are the teams and the next fresh identifier. It has one method per command except `watch`, which only reads and is `Polling.Watch`, and `read`, which is left out. Each method changes the directory only as the script does.

Envelope ids and drawn request ids come from `crypto.randomUUID`. Here they are drawn from the counter `nextUuid`, and
`Uuid(n)` is the identifier for draw `n`. The lead session id of `create` is left out.

## Model

| member | source | states |
|---|---|---|
| Names.SanitizeName | scripts/vc-teams.js:105-116 | Fails with "Invalid name" exactly when the lower-cased value has no character of `[a-z0-9._]`. Otherwise the result uses only `[a-z0-9._-]`, has no `--`, does not start or end with `-`, and keeps the input's word characters in order. |
| Names.NormalizeKeepsWords | scripts/vc-teams.js:107-111 | The replace chain keeps exactly the word characters of the lower-cased input, in order. |
| Names.SanitizeIdempotent | scripts/vc-teams.js:105-116 | Sanitizing a sanitized name returns it unchanged. |
| Names.MakeAgentId | scripts/vc-teams.js:118-120 | Succeeds exactly when both names sanitize. An agent name that does not sanitize is reported first. |
| Names.AgentIdSplits | scripts/vc-teams.js:118-120 | The agent id `<agent>@<team>` splits at its only `@` back into the two sanitized names. |
| Names.ColorForAgent | scripts/vc-teams.js:139-145 | The index loop computes the 32-bit hash fold, and the colour is the palette entry at that hash modulo the palette size. |
| Names.PaletteSlotMod8 | scripts/vc-teams.js:139-145 | Because 8 divides 2^32, the palette slot depends only on the hash fold carried out modulo 8. |
| Options.ParseOptions | scripts/vc-teams.js:61-87 | The index loop over argv returns what the scan specification returns, including the failure when `--_` has replaced the positional list. |
| Options.ScanProvenance | scripts/vc-teams.js:61-87 | Every named key was spelled by a `--` token, and every positional is an argv token that does not start with `--`. |
| Options.PlainArgumentsPassThrough | scripts/vc-teams.js:61-87 | A command line without `--` tokens is kept verbatim as positionals. |
| Options.PickOption | scripts/vc-teams.js:89-97 | Returns the value of the first key that is present and not blank after trimming, or nothing when no key is usable. |
| Options.RequiredOption | scripts/vc-teams.js:99-103 | The value of the first usable key, as `pickOption` gives it, or "Missing required arg" with the label exactly when no key is usable. |
| Options.ParseBoolean | scripts/vc-teams.js:122-129 | Absent or empty gives the fallback and a boolean stays itself. Anything else that is not a known word is "Invalid boolean". |
| Options.ParseBooleanText | scripts/vc-teams.js:122-129 | For non-empty text, true, false or error is decided by the trimmed lower-cased word alone, in all three directions. |
| Options.BooleanTextRoundTrip | scripts/vc-teams.js:122-129 | `String(b)` is read back as `b`, whatever the fallback. |
| Envelopes.NormalizeMessageType | scripts/vc-teams.js:322-327 | `shutdown_response` becomes `shutdown_approved` when approve is true, else `shutdown_rejected`. Every other type is unchanged, and membership in the type set is preserved. |
| Envelopes.SameBucketWithinWindow | scripts/vc-teams.js:329-333 | Two clock readings in the same `floor(now/window)` bucket are less than one window apart. |
| Envelopes.DedupeKey | scripts/vc-teams.js:329-333 | The key is the digest of the pipe-joined fields and the time bucket, and it is the same for every clock reading in the window-long interval of that bucket. |
| Envelopes.DedupeRawIsAmbiguous | scripts/vc-teams.js:329-333 | Two different field tuples join to the same hashed text, so the key is not injective on tuples. |
| Envelopes.ValidateEnvelope | scripts/vc-teams.js:365-380 | Accepts exactly the envelopes that meet the generic, shutdown and plan-approval conditions. The plan-approval checks test the requested type, and an accepted envelope is returned unchanged. |
| Envelopes.BuildEnvelope | scripts/vc-teams.js:335-363 | Building succeeds exactly when the names sanitize, the id is non-empty and validation passes. The result keeps the requested type as `rawType`, stores the normalised type, starts unread, and carries a key exactly when de-duplication is on. |
| Envelopes.SameRequestSameKey | scripts/vc-teams.js:329-363 | Identical requests built in the same time bucket carry the same key. |
| Mailbox.FindDuplicate | scripts/vc-teams.js:271-287 | Finds the first stored envelope with the same key, a parseable timestamp and an age of at most the window (inclusive), or reports that none exists. |
| Mailbox.IsRecentDuplicate | scripts/vc-teams.js:271-276 | A recent duplicate has the same key and a parseable time. Such a copy is recent when its time is not before the clock, and when it lies earlier in the same time bucket. |
| Mailbox.Deliver | scripts/vc-teams.js:278-296 | A duplicate is reported exactly when the envelope has a key and a recent copy exists. It then names the first copy and leaves the inbox unchanged. Otherwise the envelope is appended at the end, earlier entries are unchanged, and its own id is reported. |
| Mailbox.RepeatedSendIsDeduplicated | scripts/vc-teams.js:329-363 | Two identical sends in one bucket store one envelope, and the second reports the first's id. |
| Mailbox.MarkReadAt | scripts/vc-teams.js:908-915 | Only the first envelope with the id changes, and only in `read`/`readAt`. Length and every other envelope are kept, and an absent id is "Message not found". |
| Mailbox.MarkIfPresent | scripts/vc-teams.js:860-869 | The mark of `await` keeps the length and does nothing when the id has disappeared from the latest copy. Otherwise the first envelope with the id is marked read at the clock and every other envelope is kept. |
| Mailbox.StatsAfterDeliverAndMark | scripts/vc-teams.js:691-704 | A fresh delivery adds one to the total and one to the unread count, and sets the last timestamp. A duplicate changes no count. Marking read lowers the unread count by one exactly when the target was unread. |
| Mailbox.PruneInbox | scripts/vc-teams.js:935-944 | Keeps exactly the envelopes with an unparseable timestamp, the unread ones, and the read ones not older than the cutoff. |
| Mailbox.PruneKeepsUnread | scripts/vc-teams.js:935-944 | Pruning keeps every unread envelope, and a second prune with the same cutoff changes nothing. |
| Ledger.OpenRequest | scripts/vc-teams.js:627-635 | A request send opens an entry that is pending, unresolved and carries the request id. |
| Ledger.FindPending | scripts/vc-teams.js:405-406 | Finds the first entry that has the id and is still pending. |
| Ledger.Resolve | scripts/vc-teams.js:401-419 | Without a pending entry the result is "No pending request". Otherwise only that entry changes: its status follows approve, the resolver is sanitized, and the resolution type is recorded. The ledger length is kept. |
| Ledger.PendingOf | scripts/vc-teams.js:421-425 | Lists exactly the pending entries. |
| Ledger.OpenedRequestIsPending | scripts/vc-teams.js:391-399 | Appending a pending entry appends it to the pending list. |
| Ledger.ResolveConsumesOne | scripts/vc-teams.js:401-419 | A resolution removes exactly one pending entry with the id, so a second resolution of a request opened once fails. |
| Ledger.ResolvedEntriesAreFinal | scripts/vc-teams.js:401-419 | Entries already resolved are never changed by a resolution. |
| Locking.SleepsCountUp | scripts/vc-teams.js:207-234 | The backoff sleeps are taken with attempt 0, 1, 2, … in order, at most 40 of them, and giving up happens only with all 40 used. |
| Locking.StaleRemovalIsFree | scripts/vc-teams.js:193-224 | Removing stale markers first leaves the verdict and the sleeps as they were and only adds to the removal count, so staleness costs no retry budget. |
| Locking.OtherErrorsAreImmediate | scripts/vc-teams.js:221-233 | An error other than an existing marker is rethrown at once. |
| Locking.FreshMarkerExhausts | scripts/vc-teams.js:225-232 | A marker that stays fresh gives 40 sleeps, then the rethrown EEXIST. |
| Locking.LockTable.Acquire | scripts/vc-teams.js:207-234 | The retry loop returns the specified acquisition. A stale marker is removed, and an acquired marker records the clock. |
| Locking.LockTable.WithLock | scripts/vc-teams.js:207-252 | A lock that cannot be taken is the rethrown error. Once taken, the section's result or error is passed on and the marker is removed. |
| Roster.FindMember | scripts/vc-teams.js:382-389 | The member with the sanitized name, or "Member not found" exactly when no member has it. |
| Roster.OthersThanCount | scripts/vc-teams.js:567-572 | With distinct names, a broadcast reaches every other member exactly once. |
| Roster.ResolveRecipients | scripts/vc-teams.js:567-581 | Broadcast and idle notification go to every member except the sender, in roster order. Other types need a recipient, and that recipient must be a member. |
| Roster.PlanCreate | scripts/vc-teams.js:427-485 | The team name must be new. The lead's name is the sanitized `--lead-name`, `team-lead` by default, and an unsanitizable one is an error. The lead gets the agent id `<lead>@<team>`, the clock as its join time and the parsed `--plan-mode-required`, whose parse error is reported. |
| Roster.PlanAddMember | scripts/vc-teams.js:505-539 | An existing team is required, and a name already on the roster is refused. The new entry's agent id is `<name>@<team>`. |
| Roster.JoiningMember | scripts/vc-teams.js:512-527 | The new roster entry carries the sanitized name, the agent id `<name>@<team>` and the join time. |
| Roster.PlanRemoveMember | scripts/vc-teams.js:541-561 | The member must exist and must not be the lead. |
| Roster.PlanDelete | scripts/vc-teams.js:487-503 | Without `--force`, a team is deleted exactly when no member besides the lead remains. The error lists the remaining names. |
| Roster.InboxArgs | scripts/vc-teams.js:903-904 | Team, then agent, both required and sanitized, with the team checked first. |
| Protocol.ApproveFor | scripts/vc-teams.js:613-622 | Response types need an approve flag. `shutdown_approved` and `shutdown_rejected` force it to true and false. Other types parse it only when it is given. |
| Protocol.TypeClasses | scripts/vc-teams.js:18-33 | The request, response and fan-out types are disjoint subsets of the type set. |
| Protocol.SendType | scripts/vc-teams.js:584-590 | The team is required and checked first. The trimmed type must be in the set, and the team must exist. |
| Protocol.SendSender | scripts/vc-teams.js:591-592 | The sender, `team-lead` by default, is sanitized and must be a member. |
| Protocol.RequestIdFor | scripts/vc-teams.js:605-611 | A request type without an id draws a fresh one, and a response type without one is refused. |
| Protocol.PlanSend | scripts/vc-teams.js:583-624 | A plan that stands is well formed. Its sender is a member, message and broadcast carry content, terminal shutdown types fix approve, a request id is drawn exactly for request types that have none, and the recipients are as `resolveRecipients` gives them, each one a member. |
| Protocol.SendRejectsUnknownTypeOrTeam | scripts/vc-teams.js:584-590 | A type outside the set is "Unsupported type", and an absent team is "Team not found". |
| Protocol.SendRejectsNonMember | scripts/vc-teams.js:591-592 | A sender who is not on the roster is refused. |
| Protocol.SendRejectsMissingContent | scripts/vc-teams.js:601-603 | A message or broadcast without content is refused. |
| Protocol.SendRejectsMissingRequestId | scripts/vc-teams.js:609-611 | A response type without a request id is refused. |
| Protocol.LedgerStep | scripts/vc-teams.js:626-640 | A request type appends a pending entry addressed to the first recipient. A response type resolves the pending entry for its id, with the sender as resolver. Other types leave the ledger alone. |
| Protocol.DeliverFrom | scripts/vc-teams.js:645-663 | A completed loop counts every target once, as delivered or deduplicated, and takes one identifier per target. Inboxes of non-targets are untouched. |
| Protocol.DeliverNext | scripts/vc-teams.js:645-663 | One turn takes one identifier. It fails exactly when the envelope does not build, and then changes nothing else. Otherwise it counts one delivery or one duplicate. |
| Protocol.RepeatedSendCountsOneDuplicate | scripts/vc-teams.js:645-663 | Sending one message twice in a bucket delivers once and counts one duplicate, and the inbox holds one envelope. |
| Store.NewTeam | scripts/vc-teams.js:442-476 | A created team is valid, has the lead as its only member with an empty inbox, and has no requests and zeroed statistics. |
| Store.AddKeepsValid | scripts/vc-teams.js:505-539 | Adding a member under a fresh sanitized name keeps the team invariant. |
| Store.RemoveKeepsValid | scripts/vc-teams.js:541-561 | Removing a member other than the lead, with their inbox, keeps the team invariant. |
| Store.SendPlannedAccounts | scripts/vc-teams.js:624-673 | A refused ledger step changes nothing. Otherwise the ledger change stays even when an envelope later fails. A completed send has `delivered + deduped` equal to the recipient count, adds `deduped` to the statistics, and uses one identifier per recipient. No other team changes. |
| Store.SendKeepsValid | scripts/vc-teams.js:583-689 | `send` keeps every team valid. |
| Store.SettledKeepsValid | scripts/vc-teams.js:657-689 | Writing back inboxes that belong to the team's roster or were already there, with the duplicate count added, keeps every team valid. |
| Store.PruneFromSpec | scripts/vc-teams.js:933-946 | Every member's inbox holds exactly what the retention filter keeps of it, other inboxes are untouched, and the count is the number of messages that disappeared. |
| Store.PruneSettles | scripts/vc-teams.js:933-946 | Pruning keeps every member's unread count, and a second prune removes nothing and changes nothing. |
| Store.StatusSpec | scripts/vc-teams.js:706-728 | Only pending requests are listed. Unfiltered, there is one inbox entry per member in roster order. An agent filter that does not sanitize is an error, and one that does keeps at most one entry, present exactly when the name is a member. |
| Store.FilteredStats | scripts/vc-teams.js:711-713 | Filtering the inbox statistics of a team whose member names are distinct by one name keeps at most that member's entry, and keeps it exactly when the name is on the roster. |
| Store.TeamStore.Create | scripts/vc-teams.js:427-485 | An error changes nothing. Otherwise the new team is added under its sanitized name, and the store stays valid. |
| Store.TeamStore.Delete | scripts/vc-teams.js:487-503 | The team is removed exactly when the delete checks pass, and the store stays valid. |
| Store.TeamStore.AddMember | scripts/vc-teams.js:505-539 | On success the member is appended and gets an empty inbox. Nothing changes otherwise, and the store stays valid. |
| Store.TeamStore.RemoveMember | scripts/vc-teams.js:541-561 | On success the member leaves the roster and their inbox is deleted. Nothing changes otherwise, and the store stays valid. |
| Store.TeamStore.AddPendingRequest | scripts/vc-teams.js:391-399 | The entry is appended to the team's ledger, and nothing else changes. |
| Store.TeamStore.ResolvePendingRequest | scripts/vc-teams.js:401-419 | The ledger becomes the resolved ledger, and nothing is written on failure. |
| Store.TeamStore.DeliverAll | scripts/vc-teams.js:642-663 | The loop leaves the inboxes and the next identifier as the delivery specification gives them. |
| Store.TeamStore.RecordLedger | scripts/vc-teams.js:626-640 | A refused ledger step (a response with no pending request) changes nothing. Otherwise only the team's ledger changes, to the step's result. |
| Store.TeamStore.DeliverAndCount | scripts/vc-teams.js:642-674 | The deliveries, then the statistics update, leave the report, the directory and the counter of the fan-out specification settled. |
| Store.TeamStore.Settle | scripts/vc-teams.js:665-689 | Once the loop's inboxes are stored, the duplicates are added to the statistics only after a completed loop, and the report is the settled one. |
| Store.TeamStore.Dispatch | scripts/vc-teams.js:605-689 | After a drawn request id, the ledger step, deliveries and statistics leave what the planned-send specification gives. |
| Store.TeamStore.PlanAndDispatch | scripts/vc-teams.js:583-689 | The plan, then what follows it, leave what the send specification gives. |
| Store.TeamStore.Proceed | scripts/vc-teams.js:583-689 | A refused plan is reported with nothing changed; a plan that stands is dispatched as the send specification gives. |
| Protocol.DeliverLoop | scripts/vc-teams.js:642-663 | The per-recipient loop over the plan's recipients ends with exactly the inboxes, identifier counter and counts of the fan-out specification, stopping at the first envelope that fails to build. |
| Store.TeamStore.Send | scripts/vc-teams.js:583-689 | The report, the directory and the next identifier are those of the send specification, and the store stays valid. |
| Store.TeamStore.MarkRead | scripts/vc-teams.js:902-919 | Checks team, agent, then id. A missing team directory makes the lock fail, an absent id is "Message not found", and otherwise only the target envelope of the agent's inbox is marked. The store stays valid. |
| Store.TeamStore.MarkInbox | scripts/vc-teams.js:907-915 | Under the inbox lock: an id not in the inbox is an error that writes nothing; otherwise the marked inbox replaces the agent's inbox and nothing else changes. |
| Store.MarkReadRaw | scripts/vc-teams.js:905-915 | An id given as a bare flag never matches and is "Message not found". A text id marks the inbox as `MarkReadAt` does. |
| Store.TeamStore.Prune | scripts/vc-teams.js:921-946 | A missing team is "Team not found". Otherwise every member's inbox is rewritten as the prune specification gives it, and the removed count is reported. The store stays valid. |
| Store.TeamStore.PruneInboxes | scripts/vc-teams.js:932-946 | The loop over the roster rewrites each member's inbox in turn, ending as the prune specification. |
| Store.TeamStore.Await | scripts/vc-teams.js:835-900 | Checks the arguments, the team, then membership. The agent's inbox is then polled as the await specification gives, and the store stays valid. |
| Store.TeamStore.AwaitInbox | scripts/vc-teams.js:851-890 | The member's inbox after the polling loop (with the match marked read when asked) is the only change, and the answer is the loop's answer. |
| Store.TeamStore.ListInboxStats | scripts/vc-teams.js:691-704 | The loop returns one entry per member in roster order, each with that inbox's total, unread count and last timestamp. |
| Store.TeamStore.Status | scripts/vc-teams.js:706-757 | The report is the status specification: team, then view, then `--json`. |
| Polling.FindAnswer | scripts/vc-teams.js:856 | The first envelope whose request id equals the requested text, or none. |
| Polling.AwaitArgs | scripts/vc-teams.js:836-846 | Team, agent, request id (trimmed), `--mark-read`, then `--json`, in that order. |
| Polling.AwaitLoop | scripts/vc-teams.js:851-873 | The polling loop returns what the await specification returns. |
| Polling.AwaitFrom | scripts/vc-teams.js:854-899 | A failure is always "Timed out waiting", a success is an envelope that answers the request, and the inbox left behind keeps every earlier envelope's id in place. |
| Polling.AwaitAnswersFirst | scripts/vc-teams.js:851-873 | A success was read at some poll within the deadline, after every earlier poll found no answer. It returns the first answer in inbox order, marked only when `--mark-read` is set and it was unread. |
| Polling.AwaitTimesOut | scripts/vc-teams.js:854-899 | A failure is "Timed out waiting", after polls that all found no answer. It ends at the first poll past the deadline, and the inbox is left unmarked. |
| Polling.Watch | scripts/vc-teams.js:759-803 | Option errors come first. Otherwise the loop runs from an empty previous key. |
| Polling.WatchLoop | scripts/vc-teams.js:771-802 | The loop returns what the watch specification returns. |
| Polling.WatchFrom | scripts/vc-teams.js:771-802 | Turns and printed keys only grow, at most one key is printed per turn, and a failure is the error of one of the status reads. |
| Polling.WatchNoRepeats | scripts/vc-teams.js:784-796 | No key is printed twice in a row. |
| Polling.WatchKeepsPrinted | scripts/vc-teams.js:784-796 | What was printed before a turn is still the start of the output after it: the loop only ever appends. |
| Polling.WatchTurns | scripts/vc-teams.js:798-800 | At most one turn per view, only one with `--once`, and at most `maxIterations` when that is positive. |
| Polling.WatchPrintsEveryTurn | scripts/vc-teams.js:777-785 | Because each view carries its own `ts`, every turn prints, and an unbounded watch prints every key it read. |

## Left out

- File I/O (`readJson`, `writeJsonAtomic`, temp files and rename, `mkdir`, `rm`, `appendFile`) is a map in memory. An absent inbox reads as empty, as `readJson` falls back. Crash atomicity has no sequential meaning.
- Processes and interleavings: the store methods run one at a time. What other processes append during `await`, and the views `watch` serialises, are inputs.
- Store.TeamStore: the lock markers of `LockTable` are not threaded through the store commands. Each command acts as if its locks were taken at once. `staleLocksRecovered` is not kept.
- Store.TeamStore.MarkRead: a lock that cannot be acquired for any other reason is not modelled. The error for a missing team directory is the `ENOENT` of the lock open.
- The backoff delay `min(1000, round(25 * 1.35^attempt))` is floating point. `LockTable` records only the attempt number of each sleep.
- A failing `rm` of a stale marker is not modelled.
- SHA-256 inside the de-duplication key is the function parameter `digest`. No injectivity is claimed.
- `crypto.randomUUID` is the counter `nextUuid` for envelope ids and request ids.
- Store.TeamStore.Create: the config's `leadSessionId` is not modelled. The script takes it from the environment or draws a fresh `crypto.randomUUID`, so `create` leaves `nextUuid` unchanged. The lead's `model` falls back to the `MODEL` environment variable in the script; here it falls back to the empty text.
- ISO 8601 formatting and `Date.parse`: times are integer milliseconds, or unparseable.
- Each command reads the clock once (`now`), where the script calls `Date.now()` per envelope.
- Store.TeamStore.Send and the send plan require `window > 0`, the configured de-duplication window, which the script takes from the environment.
- JSON serialisation, printing (`printStatus`, console output, the `--json` payloads) and `commandRead` are left out. `--json` is parsed only for its errors.
- `parsePositiveInt` and the `Number()` coercion are not modelled. The prune cutoff, the await timeout and the watch bound arrive as parameters, so their parse errors are not among the modelled outcomes.
- The environment-derived settings, path construction, `usage`, `main` and `process.exit` are left out.
- The task-file pruning of `prune` (file modification times) is left out.
- The event log (`appendEvent`) is left out.
- Lower-casing is modelled for ASCII only, and `__proto__` keys are not treated specially.
- Locking.LockTable: `markers` holds only this caller's markers. An `Exists` outcome and the age it reports are inputs and are not checked against the table.
- Locking.LockTable.Acquire: when the given outcomes run out before the loop ends, the verdict is `Unsettled`. `WithLock` is stated only for outcome sequences that settle.
- Store.TeamStore.Await requires the last poll to come after the deadline, so that the polls cover the whole run of the loop.
- Polling.Watch: the loop ends when its views run out, which stands for the process being stopped.
- Store.SendPlannedAccounts: the ledger change is stated as the ledger step's result, and the step itself is stated by `Protocol.LedgerStep`.
