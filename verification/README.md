# Codewire: a verified model of its stateful core

Codewire runs terminal sessions on nodes and lets clients reach them over a relay. This project models, in
Dafny, the parts of it where correctness depends on more than one function, and proves what each of them is for:

| modules | part of the system |
|---|---|
| `ReplayCache`, `Credentials` | signed credentials: the acceptance window, and single use through a cache that forgets expired ids |
| `AcceptedGrants`, `AccessEvents`, `GrantHistory` | the client's cache of accepted access grants, the event stream that invalidates it, and all histories of both |
| `SessionWait`, `SessionLogs` | a node's Wait handler against concurrently ending sessions, and the tail and follow of a session log |
| `WatchLines` | the splitter that turns output chunks into JSON lines |
| `SshConfig` | the managed section of the SSH config file |
| `Paths`, `Mounts`, `MountMerge` | planning the mounts of a Lima virtual machine |
| `WarmPool` | the demo broker's pool of warm pods |
| `Ports`, `PortForwards` | port entries of `codewire.yaml`, and publishing further ports of an instance |
| `GuestWire`, `GuestWrites`, `GuestExec` | framing, frames of concurrent writers, and the exec conversation between the host and the agent in a guest |
| `Text`, `Filtering`, `Scanning`, `Results` | Go's string functions, order-preserving filters, the contract of `sort.Slice`, folds over lines |

Objects that the program updates in place are classes (`ReplayCache.Cache`, `AcceptedGrants.GrantFile`,
`GrantHistory.AccessWatcher`, `WatchLines.JSONWriter`, `WarmPool.Pool`, `GuestWire.Conn`), and its loops are
methods with loops; each is proved equal to a function of its inputs and the old state, and the lemmas then speak
about those functions. Concurrent parts are state machines in which one atomic step of the program is one step;
their theorems hold for every legal sequence of steps. Times are integers. Clocks, relay answers, randomness,
JSON, base64, Ed25519 and `fmt.Sscanf` are parameters.

## Where the code does less than one would expect

Each of these is a lemma, with the exact condition where there is one.

- Before `ExpiresAt` plus 30 s at most one use of a credential succeeds; from that instant on, every use of it that
  was verified in time succeeds. Verification accepts up to and including the instant, and reads the clock apart from
  the cache, which refuses a replay only before it (`SucceedsIff`, `UsableFromTheLimitOn`, `UsableTwiceAtTheLimit`).
- A verifier bundle whose matching key is not 32 bytes long makes verification panic (`VerifyPanicsIff`).
- Forgetting consumed ids is unobservable exactly as long as the clock does not step back across a limit that it
  had already passed (`ForgettingObservableIff`; `SteppingBackForgets` is such a run).
- Two credentials of one kind can share a replay key when one network id continues the other with a NUL, and not
  otherwise (`CanCollideIff`).
- Waiting with both an id and tags can lose a wakeup, because the subscription passes over sessions that fail either
  filter; with one of them it cannot (`WakeupLostIffBothFilters`).
- An event line of 64 KiB or more ends the reading of an event stream in front of it (`ScanLinesReadsText`).
- `Kill` changes the status at once but publishes nothing. A handler can therefore be blocked with its condition true,
  nothing queued and no publication in flight, for every request whose condition can hold at all (`CanStallIff`), through a killed session that
  has not exited and in no other way (`StallIsByKill`, `NoKillNoStall`), and it stays blocked until an exit
  (`BlockedUntilAnExit`, `BlockedUntilItsExit`), which frees it (`ExitEndsStall`).
- A log tail of 2^63 lines or more makes the handler panic on a nonempty log (`TailPanicsIff`).
- Writing the managed SSH section twice is not idempotent when the known-hosts path or an option contains the END
  marker, and only then (`IdempotentIffClosed`, `BlockClosedIff`).
- Two mounts of one source whose targets differ only in white space that a second trim removes come out in no fixed
  order (`StrictlyOrderedIff`, `SpacedTargetTies`). The test for an empty source or target in `limaAdditionalMounts`
  never succeeds, because a cleaned path is never empty (`NothingIsSkipped`).
- Two writers of one guest connection can tear each other's messages, since a message is two writes without a lock;
  the exact condition and what the reader then gets are proved (`ReadBackIffUntorn`, `TornReads`).
- A message of more than 4 MiB is written but never read back (`FrameReadsBackIff`).

## Model

| member | source | states |
|---|---|---|
| ReplayCache.Cache.constructor | internal/networkauth/replay.go:17-21 | a new cache remembers nothing |
| ReplayCache.Cache.Consume | internal/networkauth/replay.go:47-74 | incomplete exactly when kind or id is blank, and then nothing changes; replay exactly while the recorded limit is ahead of the clock; otherwise the key of kind, network and id is recorded with expiry plus 30 s; of the other keys exactly those stay whose limit has not passed |
| ReplayCache.Cache.ConsumeClaims | internal/networkauth/replay.go:24-45 | the three wrappers: nil claims are an error and change nothing; other claims are recorded under "runtime", "sender" or "observer", with their own network, id and expiry plus 30 s |
| ReplayCache.ForgettingObservableIff | internal/networkauth/replay.go:61-72 | for every run and every clock: the purging cache answers some attempt differently from one that never forgets if and only if some attempt reads the clock before a recorded limit that an earlier reading had passed |
| ReplayCache.ForgettingUnobservable | internal/networkauth/replay.go:47-74 | with a nondecreasing clock the purging cache gives every run the same answers as one that never forgets |
| ReplayCache.SteppingBackForgets | internal/networkauth/replay.go:61-72 | consuming a key, reading the clock beyond its limit, and using the key again at a reading before it: the purging cache accepts, one that never forgets detects the replay |
| ReplayCache.JoinedKeyInjective | internal/networkauth/replay.go:67 | the NUL-joined key determines kind, network and id, for kinds without NUL, unless the kinds are equal and one network continues the other with a NUL not followed by white space |
| ReplayCache.CanCollideIff | internal/networkauth/replay.go:51-67 | some trimmed, nonempty ids give different credentials of two kinds and networks one key if and only if the kinds are equal and one network continues the other in that way |
| Credentials.Verify | internal/networkauth/runtime.go:104-150 | the checks and the key search loop yield, in the source's order of errors, the pure verdict `Verified` |
| Credentials.VerifiedIff | internal/networkauth/runtime.go:113-150 | a token yields claims c if and only if c are its own claims, kind and network agree, the time lies between IssuedAt - 30 s and both expiries + 30 s, and the first key with its key id is an Ed25519 key of 32 bytes under which the signature checks |
| Credentials.RefusedFor | internal/networkauth/runtime.go:105-127 | which of kind, network, bundle expiry, issue time and token expiry a refusal names: the first that fails, in this order |
| Credentials.RefusedByKey | internal/networkauth/runtime.go:129-150 | of a token in its window, the first key with its key id decides: none or empty, another algorithm, undecodable, of another length, bad signature, or accepted |
| Credentials.VerifyPanicsIff | internal/networkauth/runtime.go:129-149 | verification panics if and only if kind, network and time admit the token and the first key with its key id is an Ed25519 key that decodes to a nonempty text of another length than 32 bytes |
| Credentials.AdmitUse | internal/node/node.go:412-421 | verify at one clock reading, the caller's own checks, and consume at another reading are together the pure step `Admit` on the cache |
| Credentials.AdmittedIsRemembered | internal/networkauth/replay.go:61-72 | over every run, an admitted use stays recorded with its own limit until the clock reaches that limit, whatever else is used in between |
| Credentials.SecondSuccessIsAtTheLimit | internal/networkauth/replay.go:68-72 | over every run with an orderly clock and any other credentials interleaved, a second success for one key lies at or beyond the first one's ExpiresAt + 30 s: at most one success before it |
| Credentials.AtMostOneSuccessBeforeLimit | internal/networkauth/replay.go:54-72 | said of the tokens' claims: of two successful uses of one kind, trimmed network and trimmed id, whatever is used in between, the second reaches the cache at or beyond the first token's ExpiresAt + 30 s |
| Credentials.NoneAdmittedAfterExpiry | internal/networkauth/runtime.go:125-127 | in every run, no use verified after its token's ExpiresAt + 30 s succeeds, for all three kinds |
| Credentials.AdmittedIff | internal/networkauth/replay.go:54-73 | in every run with an orderly clock and ids that fix their expiry, exactly these uses succeed: verified and permitted, with a complete key, and either the first success of that key or at or beyond the limit |
| Credentials.SucceedsIff | internal/networkauth/replay.go:54-73 | said of tokens, bundles and clocks: in every orderly run of credentials that each have one expiry and do not collide, a use succeeds if and only if it verifies, is permitted, has an id, and is the first success of its credential or reaches the cache at or beyond ExpiresAt + 30 s |
| Credentials.UsableFromTheLimitOn | internal/networkauth/replay.go:61-72 | in every run, a verified and permitted use with a complete key that reaches the cache at or beyond ExpiresAt + 30 s is admitted, however often the credential was used before |
| Credentials.UsableTwiceAtTheLimit | internal/networkauth/replay.go:62-70 | at the instant ExpiresAt + 30 s a credential that verifies is admitted twice, even when both clocks read that instant |
| Credentials.DifferentCredentialsDoNotCollide | internal/networkauth/replay.go:67 | uses that reach one key carry tokens of one kind, trimmed network and trimmed id, outside the exact collision condition of `CanCollideIff` |
| AcceptedGrants.GrantFile.Accept | internal/client/access_cache.go:48-89 | the new record carries the trimmed token and each claim; expired records are dropped, then it replaces the first record of its id or is appended; an unparsable token changes nothing |
| AcceptedGrants.GrantFile.List | internal/client/access_cache.go:91-104 | returns and keeps exactly the unexpired records, in order |
| AcceptedGrants.GrantFile.Remove | internal/client/access_cache.go:231-250 | the in-place compaction drops exactly the records whose trimmed id is the given one, in order, and reports whether there was any |
| AcceptedGrants.GrantFile.Prune | internal/client/access_cache.go:252-304 | said of the relay's answers: the new cache holds, in order, exactly the grants that are unexpired and, with the relay reachable, neither missing nor revoked nor expired there; the counters count the locally expired, the revoked or expired there, and the missing, and everything adds up to the initial count |
| AcceptedGrants.GrantFile.Resolve | internal/client/access_cache.go:145-198 | the call follows a resolve trace: the matching unexpired grants in some order of falling expiry, a prefix of them refused, the token of the next one returned, the refused ids gone from the cache |
| AcceptedGrants.GrantFile.TryInOrder | internal/client/access_cache.go:177-197 | the lookup loop stops at the first grant not refused and has removed exactly the ids before it |
| AcceptedGrants.CompactInPlace | internal/client/access_cache.go:236-244 | writing kept elements into the front of the array being iterated equals an order-preserving filter of the original, and leaves the rest of the array alone |
| AcceptedGrants.ValidateInPlace | internal/client/access_cache.go:269-296 | the relay pass, writing into the array it iterates, keeps exactly the grants whose fate is to be kept and counts the revoked and the missing |
| AcceptedGrants.PruneExpired | internal/client/access_cache.go:340-349 | an order-preserving filter by expiry |
| AcceptedGrants.MatchingGrants | internal/client/access_cache.go:151-166 | the four tests of the loop keep exactly the grants matching network, node, session and verb, in order |
| AcceptedGrants.FatesAddUp | internal/client/access_cache.go:259-300 | every grant meets exactly one fate: the four fates partition any cache |
| AcceptedGrants.FatesByAnswers | internal/client/access_cache.go:259-294 | which grants meet which fate, said of expiry and the relay's answers, with and without access to the relay |
| AcceptedGrants.FailedLookupKeepsGrant | internal/client/access_cache.go:277-284 | a lookup failing for another reason than a missing grant never drops an unexpired grant |
| AcceptedGrants.UpsertKeepsIDsDistinct | internal/client/access_cache.go:72-84 | accepting keeps grant ids distinct, adds the new record, drops only its predecessor and keeps all others |
| AcceptedGrants.ResolvedGrantExpiresLast | internal/client/access_cache.go:145-225 | the returned token is that of an unexpired grant for the query's network, node, session and verb to which the relay did not say missing, revoked or expired; each such grant that expires later was looked up earlier in this call and got that answer at that lookup's own clock reading; without a returned token all of them did |
| AcceptedGrants.ResolveDropsExactlyTheRefused | internal/client/access_cache.go:177-197 | with distinct trimmed ids, the cache afterwards is the old one minus the locally expired grants and minus exactly the refused grants tried |
| AccessEvents.StreamEvents | internal/client/access_events.go:130-182 | the handler calls made for a response body, read to its end or to a read error, are those of its lines, with a dispatch at the end; a failing call ends them, and a line too long for the scanner or a read error is reported |
| AccessEvents.ScanAll | internal/client/access_events.go:159-182 | the scan loop with its three variables makes exactly the handler calls of the line-by-line fold, up to and including the first that fails |
| AccessEvents.CommentsAreSilent | internal/client/access_events.go:166-167 | whatever follows the colon, a comment line is silent |
| AccessEvents.SilentLinesDoNotMatter | internal/client/access_events.go:166-174 | comments and unknown fields, anywhere and from any state, change no handler call |
| AccessEvents.EveryStreamIsTranscript | internal/client/access_events.go:159-165 | every list of lines is a transcript of blocks between blank lines |
| AccessEvents.TranscriptDispatches | internal/client/access_events.go:130-182 | in every stream each block is dispatched exactly once, in order, for what it stands for by itself: its last id, its last type or else the decoded one, all its data lines joined; not at all when it has no data or none that decodes; the last block also without a blank line behind it |
| AccessEvents.EventStandsForItself | internal/client/access_events.go:130-182 | the block the relay writes for an event stands for exactly this event |
| AccessEvents.StreamDispatches | internal/client/access_events.go:130-182 | the same from raw text, for lines that fit the scanner's buffer |
| AccessEvents.ScanLinesReadsText | internal/client/access_events.go:159-160 | text made of lines ended by LF or CRLF, with or without a final line end, scans back to those lines if and only if each fits the scanner's buffer |
| AccessEvents.StreamRoundTrip | internal/client/access_events.go:130-182 | the same round trip from raw text, with comments and unknown fields strewn in and either line ending, for lines that fit the scanner's buffer |
| GrantHistory.AccessWatcher.HandleEvent | internal/client/access_events.go:53-79 | the cursor moves to a nonempty event id of this network, a revocation removes the grant, a reset prunes, other types change nothing |
| GrantHistory.AccessWatcher.HandleStream | internal/client/access_events.go:53-79 | a connection applies its events in order to cursor and grants, each at its own time and with the relay's answers of that time |
| GrantHistory.Perform | internal/client/access_events.go:53-79 | the cache's own methods and the event handler take exactly the steps that histories are made of |
| GrantHistory.StepKeepsRecords | internal/client/access_cache.go:72-84 | each operation keeps ids distinct and leaves only records it made or found and did not displace |
| GrantHistory.RecordsComeFromTheirLastAcceptance | internal/client/access_cache.go:48-89 | in every reachable state there is one record per id, each made by an acceptance after which nothing removed, replaced or revoked it |
| GrantHistory.RevokedGrantStaysOut | internal/client/access_events.go:60-67 | in every history, a record present after a handled revocation of its id was accepted again after that revocation |
| GrantHistory.UnthreatenedGrantSurvives | internal/client/access_cache.go:145-304 | a grant stays cached over every stretch of history in which it is not displaced, does not expire, is not dropped by a prune, and no resolve call with relay access looks up a cached matching grant of its trimmed id and has it refused at one of its own clock readings |
| GrantHistory.CursorIsLastEventID | internal/client/access_events.go:197-210 | in every history the cursor of a network is the last nonempty event id handled for it, and absent without one |
| GrantHistory.StreamKeepsIff | internal/client/access_events.go:53-79 | after a stream exactly those records are left of which no event is a revocation, and that at every "stream.reset" were unexpired and, with the relay reachable, neither missing nor revoked nor expired there |
| GrantHistory.StreamMovesCursor | internal/client/access_events.go:54-58 | after a stream the cursor of its network is the last id in it |
| GrantHistory.StreamLeavesCursor | internal/client/access_events.go:54-58 | a stream moves no other cursor, and none without an id |
| GrantHistory.WrittenEventReachesCache | internal/client/access_events.go:53-182 | from text to cache: a revocation or reset written anywhere in a stream leaves no record that it is to remove |
| GrantHistory.WrittenStreamKeepsIff | internal/client/access_events.go:53-182 | and exactly those records are left that nothing written removes |
| SessionWait.SaysDoneIff | internal/node/handler.go:663 | the substring test on the status text holds exactly for sessions no longer running |
| SessionWait.SurveyDone | internal/node/handler.go:675-684 | the loop finds out whether all and whether any listed session is done |
| SessionWait.ConditionMet | internal/node/handler.go:674-685 | true exactly when the all condition holds of a nonempty list, or the any condition holds |
| SessionWait.HoldsMeans | internal/node/handler.go:648-685 | what is waited for, said of the request's fields and the session table: an absent condition is "all", and a session matches with any one of the requested tags |
| SessionWait.EnvironmentKeepsInv | internal/session/session.go:1051-1067 | launches, kills, exits and publications keep the invariant that every unseen done session still has a publication ahead or an event queued |
| SessionWait.HandlerKeepsInv | internal/node/handler.go:657-732 | so does every step of the handler, including a listing that reads sessions one by one while statuses change |
| SessionWait.RunKeepsInv | internal/node/handler.go:657-741 | so does every interleaving |
| SessionWait.UnseenDoneSession | internal/node/handler.go:694-732 | a handler that blocks although its condition holds waits for a done session whose event is queued or still to be published |
| SessionWait.NoLostWakeup | internal/node/handler.go:657-741 | over all interleavings, with an id or tags but not both: no reachable state has the condition true, the queue empty, the handler blocked, and no publication of an awaited done session still to come (that of a killed one comes with its exit) |
| SessionWait.ReplyIsRight | internal/node/handler.go:660-731 | a WaitResult is sent only while the condition holds, lists exactly the session asked for or all sessions matching the tags, and what it lists as done is done |
| SessionWait.WakeupLeadsToReply | internal/node/handler.go:694-731 | once a queued event wakes the handler while the condition holds, its steps on an unchanged table, in whatever order it reads the sessions, are bounded in number and can be continued exactly until it has replied |
| SessionWait.StallIsByKill | internal/session/session.go:1147-1175 | a run that ends with the handler blocked, the condition true, the queue empty and no publication in flight leaves an awaited session killed but not exited |
| SessionWait.NoKillNoStall | internal/session/session.go:1051-1067 | without kills, and with none under way at the start, no run ends so: a blocked handler whose condition holds has an event queued or a publication in flight |
| SessionWait.CanStallIff | internal/session/session.go:1147-1175 | a request can stall in some run if and only if it names an id, or tags and the condition all or any |
| SessionWait.BlockedUntilAnExit | internal/node/handler.go:694-738 | with nothing queued and no publication in flight, a blocked handler stays blocked over every continuation in which no session that its subscription receives exits and the time does not run out |
| SessionWait.BlockedUntilItsExit | internal/node/handler.go:694-738 | a handler waiting for one session that has not exited, with nothing queued, stays blocked over every continuation without that session's exit and the timeout |
| SessionWait.ExitEndsStall | internal/session/session.go:1051-1067 | the exit of an awaited session, once published, ends a stall: the handler is on its way to a reply |
| SessionWait.UnheardPublication | internal/session/events.go:311-331 | for every request with an id and tags, a run of a session with that id and none of the tags in which the wakeup is lost |
| SessionWait.WakeupLostIffBothFilters | internal/node/handler.go:651-741 | a request can lose a wakeup in some run if and only if it names both an id and tags |
| SessionLogs.HandleLogs | internal/node/handler.go:746-835 | the frames sent for an unreadable, missing or readable log, with tail and follow, up to the first that cannot be sent, or the panic |
| SessionLogs.FollowLog | internal/node/handler.go:787-832 | the polling loop sends exactly the frames of its polls at the offsets they leave, and ends behind the first frame that cannot be sent |
| SessionLogs.HandlerFrames | internal/node/handler.go:774-831 | without follow exactly one frame, which is done; with follow no frame is |
| SessionLogs.HandlerStrips | internal/node/handler.go:759-823 | stripping applies to the content before its tail is taken and to every later chunk by itself |
| SessionLogs.HinderedPollSendsNothing | internal/node/handler.go:793-817 | a tick that fails or finds nothing new sends nothing and leaves the offset |
| SessionLogs.TailIsSuffix | internal/node/handler.go:765-772 | for n below 2^63 the tail is the suffix of the content that holds exactly the last min(n, total) newline-separated pieces |
| SessionLogs.TailPanicsIff | internal/node/handler.go:765-771 | the slice expression panics exactly on a count of 2^63 or more against a nonempty log |
| SessionLogs.FollowLosesNothing | internal/node/handler.go:787-832 | over an append-only file, whatever the reads return, the data sent is exactly the bytes between the first and the current offset |
| SessionLogs.FollowedLogIsTailPlusAppended | internal/node/handler.go:759-832 | everything the handler sends is the tail of the initial content (all of it without a count) followed by exactly the bytes from the initial length to the current offset |
| SessionLogs.UnhinderedPollCompletes | internal/node/handler.go:759-832 | once a poll meets no error and no short read, everything the handler has sent is that tail followed by all that was appended, whatever the polls before it met |
| WatchLines.JSONWriter.constructor | internal/client/commands.go:955-961 | a new writer has an empty buffer and has emitted nothing |
| WatchLines.JSONWriter.EmitLine | internal/client/commands.go:987-988 | emits the line without a trailing carriage return; a write may fail |
| WatchLines.JSONWriter.WriteChunk | internal/client/commands.go:963-976 | emits every completed line of buffer plus chunk and keeps the unfinished one; a failed write stops right behind the failing line and keeps the text behind it |
| WatchLines.JSONWriter.EmitLines | internal/client/commands.go:965-975 | the loop emits the first n pieces of the buffer and leaves the others |
| WatchLines.JSONWriter.Flush | internal/client/commands.go:978-985 | emits a nonempty rest once and empties the buffer |
| WatchLines.JSONWriter.WriteStream | internal/client/commands.go:963-985 | a stream in any chunks, then flushed, comes out as the lines of its concatenation, and a second flush adds nothing |
| WatchLines.ChunksCompose | internal/client/commands.go:963-976 | completed lines and rest of a concatenation follow from those of its two parts |
| WatchLines.FedIsWhole | internal/client/commands.go:963-976 | after any chunks, lines and buffer are those of the concatenation |
| WatchLines.ChunkBoundariesNeverMatter | internal/client/commands.go:963-976 | two ways of cutting one stream leave the same lines and the same buffer, which holds no newline |
| WatchLines.LinesRebuildTheStream | internal/client/commands.go:965-971 | completed lines and rest, joined by newlines, are the stream: nothing is lost or altered |
| SshConfig.SshConfigBlock | cmd/cw/ssh_config.go:111-132 | the string builder yields the block of fixed lines, option lines and END marker |
| SshConfig.BlockLinesAre | cmd/cw/ssh_config.go:111-132 | split at newlines, the block is its seven fixed lines in order, the option lines, and the END marker |
| SshConfig.OptionLinesSnoc | cmd/cw/ssh_config.go:121-129 | one indented line per option that is not blank, trimmed, in order |
| SshConfig.SucceedsIff | cmd/cw/ssh_config.go:135-149 | rewriting succeeds exactly when neither marker occurs, or the first START is not behind the first END |
| SshConfig.AppendsBehindEmptyLine | cmd/cw/ssh_config.go:139-146 | a file without markers gets the section behind an empty line, the same whether its last line was ended or not |
| SshConfig.NewFileIsSection | cmd/cw/ssh_config.go:139-146 | an empty file becomes the section alone |
| SshConfig.OutsideIsKept | cmd/cw/ssh_config.go:151-155 | text before the first START and after the first END is kept verbatim, up to one newline behind END |
| SshConfig.ClosedBlockIsFound | cmd/cw/ssh_config.go:134-156 | a block whose END marker is its only one is found again exactly and replaced |
| SshConfig.LastWriterWins | cmd/cw/ssh_config.go:134-156 | R(R(x, m1), m2) = R(x, m2) for every x where R(x, m1) succeeds and every closed m1 |
| SshConfig.IdempotentIffClosed | cmd/cw/ssh_config.go:134-156 | rewriting a block is idempotent on every file if and only if END occurs in the block only as its end |
| SshConfig.BlockClosedIff | cmd/cw/ssh_config.go:111-132 | the written block is closed exactly when neither the known-hosts path nor a trimmed option contains the END marker |
| SshConfig.SecondConfigWins | cmd/cw/ssh_config.go:101-105 | configuring twice leaves what the second configuration alone leaves |
| Paths.CleanIdempotent | cmd/cw/lima_backend.go:174-175 | cleaning a path twice is cleaning it once, names the same path, and never yields the empty string |
| Paths.ParseRender | cmd/cw/lima_backend.go:174-175 | reading a rendered normal path gives it back |
| Paths.ReduceLaws | cmd/cw/lima_backend.go:174-175 | cleaning is lexical resolution: empty elements and "." mean nothing, an element and the ".." behind it cancel, and the root has no parent, anywhere in a path |
| Paths.WithinIffUnder | cmd/cw/lima_backend.go:173-184 | the test on the relative path's text holds exactly when the root's elements are a prefix of the candidate's and the rest does not climb |
| Paths.WithinIsPartialOrder | cmd/cw/lima_backend.go:173-184 | containment is reflexive, antisymmetric up to cleaning, and transitive |
| Paths.RootsAreNested | cmd/cw/lima_backend.go:173-184 | two roots of one path are nested |
| Paths.StrictAncestorIsShorter | cmd/cw/lima_backend.go:173-184 | a strict ancestor other than "." is strictly shorter as text |
| Mounts.CandidateIsUsable | cmd/cw/lima_backend.go:212-230 | every candidate is a cleaned path other than "." |
| Mounts.CandidateMeans | cmd/cw/lima_backend.go:212-230 | a directory stands for itself and a file for its directory; only "/" and "." are no candidates |
| Mounts.Enumerate | cmd/cw/lima_backend.go:240-243 | the map's keys, once each, in any order |
| Mounts.SortPaths | cmd/cw/lima_backend.go:244-249 | strictly increasing by length, then text, with the same elements |
| Mounts.StrLessAt | cmd/cw/lima_backend.go:244-249 | texts are ordered by their first difference, a proper prefix first |
| Mounts.IncreasingMeans | cmd/cw/lima_backend.go:244-249 | of two kept paths the earlier is shorter, or equally long and smaller at their first difference |
| Mounts.Collapse | cmd/cw/lima_backend.go:240-263 | keeps exactly the minimal candidates, in strictly increasing order |
| Mounts.IsCovered | cmd/cw/lima_backend.go:253-259 | whether some kept path contains the candidate |
| Mounts.MinimalBelow | cmd/cw/lima_backend.go:251-263 | every candidate lies within a minimal one that is itself or strictly shorter |
| Mounts.CollapsedIsAntichainCover | cmd/cw/lima_backend.go:251-263 | kept paths are pairwise non-nested and every candidate lies within exactly one |
| Mounts.CollapseIsDeterministic | cmd/cw/lima_backend.go:240-263 | the result does not depend on the order of walking the candidate map |
| MountMerge.NormalizeMounts | cmd/cw/lima_backend.go:497-517 | the loop with its index map is the fold that replaces or appends by key |
| MountMerge.LimaAdditionalMounts | cmd/cw/lima_backend.go:488-527 | some sorted permutation of that fold over discovered, then configured mounts |
| MountMerge.NothingIsSkipped | cmd/cw/lima_backend.go:500-504 | source and target of a normalised mount are never empty, so nothing is skipped |
| MountMerge.ResultIsLastWriterMap | cmd/cw/lima_backend.go:497-517 | the result holds exactly the last mount of each joined key, once, with its own read-only flag |
| MountMerge.ResultFields | cmd/cw/lima_backend.go:499-509 | each mount of the result has the cleaned source, the cleaned target or else source, and the flag of the last mount of its key, read-only unless that says otherwise |
| MountMerge.LastWriterOfPairsIff | cmd/cw/lima_backend.go:505-516 | the result is exactly the last mounts of the (source, target) pairs if and only if no two different pairs of the input share a joined key |
| MountMerge.NulFreeSourcesTellPairsApart | cmd/cw/lima_backend.go:510 | that holds whenever no cleaned source contains NUL |
| MountMerge.ConfiguredOverridesDiscovered | cmd/cw/lima_backend.go:490-517 | the last configured mount of a key is in the result and is the only one of that key |
| MountMerge.StrictlyOrderedIff | cmd/cw/lima_backend.go:518-525 | the result is strictly increasing if and only if no two inputs that are last of their keys have one source, different targets, and targets that trimming and cleaning again makes equal |
| MountMerge.MergeIsDeterministic | cmd/cw/lima_backend.go:488-527 | then the result is one list, whatever the sort does with equivalent elements |
| MountMerge.TrimmedTargetsOrderByTarget | cmd/cw/lima_backend.go:518-525 | where no cleaned target begins or ends with white space, the result is strictly increasing by (target, source) |
| MountMerge.SpacedTargetTies | internal/config/codewire_yaml.go:76-81 | the targets "/a /" and "/a" of one source violate that condition |
| WarmPool.Pool.constructor | demo/broker/pool.go:39-49 | a new pool is empty |
| WarmPool.Pool.AppendReady | demo/broker/pool.go:232-234 | a ready pod joins the end of the queue |
| WarmPool.Pool.Assign | demo/broker/pool.go:249-262 | the first warm pod leaves the queue and is assigned under the token; an empty queue changes nothing |
| WarmPool.Pool.ReapExpired | demo/broker/pool.go:114-128 | the two loops drop exactly the assignments older than the limit, each by its own clock reading, and hand exactly their pods to deletion |
| WarmPool.Perform | demo/broker/pool.go:99-128 | the pool's methods take exactly the steps of the state machine |
| WarmPool.StepKeepsAccounts | demo/broker/pool.go:114-128 | every step keeps each handed-out pod either under its own token or deleted, never both |
| WarmPool.RunKeepsInv | demo/broker/pool.go:99-128 | every interleaving of replenish, create, assign and reap steps keeps the pool's invariant |
| WarmPool.PoolIsSafe | demo/broker/pool.go:99-128 | over every interleaving: warm pods plus outstanding creates stay within the pool size, and each ready pod is in exactly one of the queue, one token's assignment, or deletion |
| WarmPool.AssignedInReadyOrder | demo/broker/pool.go:232-262 | the i-th assignment takes the i-th pod that became ready |
| WarmPool.ReplenishFills | demo/broker/pool.go:99-112 | a replenish call whose creates all succeed brings a queue below the pool size to it exactly |
| WarmPool.StepKeepsTokens | demo/broker/pool.go:249-273 | a step changes what an issued token resolves to only by reaping it when it is too old |
| WarmPool.TokenResolvesToOnePod | demo/broker/pool.go:249-273 | over every run, an issued token resolves to the same pod until reaped and never again after |
| Ports.DecimalIsDigits | internal/config/codewire_yaml.go:154 | decimal printing yields digits whose value is the number |
| Ports.AtoiOfDecimal | internal/config/codewire_yaml.go:181 | parsing undoes printing, and the text holds no white space or colon |
| Ports.AtoiOfFormatInt | internal/config/codewire_yaml.go:154-181 | every int reads back as it is printed |
| Ports.AtoiOfSigned | internal/config/codewire_yaml.go:181-192 | signed digits read as their value, and as nothing beyond the range of int |
| Ports.CanonicalizeKeepsPorts | internal/config/codewire_yaml.go:199-247 | canonicalisation succeeds exactly on one of the two forms, with the right error otherwise, is idempotent, and keeps the trimmed label and both effective ports, which are positive |
| Ports.CanonicalIsUnique | internal/config/codewire_yaml.go:233-247 | entries with equal labels and equal effective ports have one canonical form |
| Ports.ParsePair | internal/config/codewire_yaml.go:184-196 | the text "h:g" of two positive ports parses to the canonical form of that pair, never as a single number |
| Ports.WrittenPortReadsBack | internal/config/codewire_yaml.go:98-197 | exactly the entries with a canonical form can be written, and reading the scalar or mapping gives that form |
| Ports.WrittenForm | internal/config/codewire_yaml.go:143-174 | without a label a scalar, one number where the ports agree and "host:guest" otherwise; with a label a mapping that carries it |
| Ports.OtherNames | internal/config/codewire_yaml.go:98-141 | `published` and `target` read as host and guest port and go before them |
| Ports.PaddingDoesNotMatter | internal/config/codewire_yaml.go:177 | white space around a scalar does not matter |
| Ports.PaddedPair | internal/config/codewire_yaml.go:184-196 | nor around the two numbers of a pair, which are host and guest in this order |
| Ports.Unparsable | internal/config/codewire_yaml.go:177-187 | the errors for an empty scalar and for one that is neither a number nor has exactly one colon |
| PortForwards.CanonicalLocalPorts | cmd/cw/local_cmd.go:687-697 | the canonical entries in order, without those that forward nothing |
| PortForwards.SameLocalPorts | cmd/cw/local_cmd.go:699-709 | element-wise comparison is equality |
| PortForwards.CanonicalPortsSnoc | cmd/cw/local_cmd.go:687-697 | the canonicalised list has, in order, an entry with the same effective ports and label for each entry whose effective ports are positive, and no other |
| PortForwards.PublishedMeans | cmd/cw/local_cmd.go:637-643 | a spec publishes the two numbers read from it, host first, exactly when both are positive |
| PortForwards.LoadExisting | cmd/cw/local_cmd.go:781-795 | fails exactly when the instance maps one host port to two guest ports; otherwise the map indexes exactly the canonicalised list |
| PortForwards.AddLimaPortForwards | cmd/cw/local_cmd.go:776-825 | the loops with their map equal the fold over the publish list, with its first error, and `added` is the growth of the list |
| PortForwards.AddedForwards | cmd/cw/local_cmd.go:797-816 | on success the list extends the old one, maps each host port to one guest port, contains every published pair, and each new entry was published and has a new host port |
| PortForwards.PresentPairsAddNothing | cmd/cw/local_cmd.go:806-811 | publishing pairs already present returns the same list |
| PortForwards.RepublishingIsIdempotent | cmd/cw/local_cmd.go:776-825 | repeating the publish list on its result adds nothing and returns the same, still canonical list |
| PortForwards.AddSucceedsIff | cmd/cw/local_cmd.go:797-816 | adding succeeds if and only if every spec is valid and old and published pairs together map no host port to two guest ports |
| PortForwards.FirstFailureDecides | cmd/cw/local_cmd.go:799-809 | the first spec that fails decides the error: invalid, or its host port already taken for another guest port |
| GuestWire.Conn.ReadFull | internal/guestagent/protocol.go:47 | fills the buffer and consumes exactly that much, or reports EOF on nothing and an unexpected EOF on a part |
| GuestWire.Conn.WriteMessage | internal/guestagent/protocol.go:30-42 | appends exactly one frame |
| GuestWire.Conn.ReadMessage | internal/guestagent/protocol.go:45-59 | reads one frame and leaves what follows it, or fails with the error of the length, the bound or the body |
| GuestWire.BigEndianRoundTrip | internal/guestagent/protocol.go:35-50 | the four bytes are the length modulo 2^32 to the base 256, most significant first, and read back as it |
| GuestWire.FrameReadsBackIff | internal/guestagent/protocol.go:30-58 | a written message reads back with the stream behind it intact if and only if it is at most 4 MiB, and a longer one below 4 GiB reads as too large |
| GuestWire.FramesReadBack | internal/guestagent/protocol.go:30-58 | messages of at most 4 MiB written in sequence read back in order |
| GuestWire.CutFrame | internal/guestagent/protocol.go:45-57 | a proper part of a frame yields no message: plain EOF at its start and right behind the length, an unexpected EOF elsewhere |
| GuestWire.CutStreamYieldsEarlierMessages | internal/guestagent/protocol.go:45-58 | a stream cut inside a frame yields the earlier messages, then that error |
| GuestWrites.ReadBackIffUntorn | internal/guestagent/protocol.go:37-41 | with each write a step of its own and any number of writers without a lock, the reader gets every message, in the order of their bodies, and then the end of the stream if and only if no other write falls between a length and its body |
| GuestWrites.StreamIsFramesIffUntorn | internal/guestagent/protocol.go:37-41 | the byte stream is that of any whole JSON objects, in whatever order, if and only if that holds |
| GuestWrites.TornReads | cmd/cw-guest-agent/main.go:96-116 | otherwise the reader gets the messages before the first torn one, and then bytes that begin with zero and are no object, or an unexpected end |
| GuestExec.Exec | internal/guestagent/client.go:91-124 | one request frame is sent; output and outcome are those of following the byte stream, and behind a terminal message the stream is left unread |
| GuestExec.StepKeepsInv | cmd/cw-guest-agent/main.go:96-133 | each step keeps: what was sent of a stream and what is left of it make up the stream, and Exit comes only after both |
| GuestExec.RunKeepsInv | cmd/cw-guest-agent/main.go:96-133 | so does every interleaving of the two streamers |
| GuestExec.ConversationShape | cmd/cw-guest-agent/main.go:96-133 | every interleaving is output chunks, then at most one Exit, which is last and comes only when both streams were sent whole and in order |
| GuestExec.FollowOutput | internal/guestagent/client.go:101-117 | whatever messages come before a terminal one, the client writes the data of stream "stderr" to standard error and of all others to standard output, in order, and goes on |
| GuestExec.FollowToTerminal | internal/guestagent/client.go:101-123 | the client stops exactly at the first Exit or Error, with its code or text, and leaves the rest unread |
| GuestExec.FollowToUndecodable | internal/guestagent/client.go:103-107 | a message that does not decode ends the conversation as a failed read |
| GuestExec.ClientFollowsConversation | internal/guestagent/client.go:91-124 | for every interleaving of the agent, the client delivers both streams whole and in order, returns the exit code and stops at the terminal message |
| GuestExec.BrokenConversationIsPrefix | internal/guestagent/client.go:102-106 | when the agent goes away before the end, even inside a message, the client has delivered exactly what was sent of each stream, a prefix of it, and reports a closed connection or a failed read depending on where the cut is |
| GuestExec.EveryRunFinishes | cmd/cw-guest-agent/main.go:96-133 | however the streams interleave, the agent makes a bounded number of steps and can go on exactly until it has sent the terminal message |
| GuestExec.ExecAnsweredByOneTerminal | cmd/cw-guest-agent/main.go:61-133 | every exec request whose agent has no step left is answered by exactly one terminal message, which is the last, also when the command is empty or cannot start |

## Left out

- ReplayCache.Cache.Consume: a nil cache, which accepts everything, is not modelled; the mutex makes each call one step.
- Credentials.Verify: one method stands for the three verification functions, which differ only in the expected kind, in texts and in parsing before the checks; splitting, base64 and JSON decoding of a token are its `None` case and `Crypto`. A panic on the key's length is carried as an error; characters stand for the bytes of a key.
- Credentials.AdmitUse: the checks of network, audience, verb and session between verifying and consuming are the parameter `permits`; the fetching of verifier bundles is left out. No caller consumes observer delegations.
- AcceptedGrants.GrantFile.Resolve: an error of the relay is an answer that says whether it means a missing grant; the matching on error texts behind that is left out, and so are the filtered list and the lookup of one grant by id.
- AcceptedGrants.GrantFile.Remove: reading and writing of the JSON files always succeeds, and no other process edits them meanwhile. The same holds for all members of `GrantFile` and `AccessWatcher`.
- AccessEvents.StreamEvents: reconnecting with backoff is left out; characters stand for bytes in the limit on a line; JSON decoding is a parameter. The code follows section 9.2.6 of the HTML Living Standard only loosely (it trims values, forgets the id after each event and dispatches at end of stream); the model follows the code.
- GrantHistory.AccessWatcher.HandleEvent: a crash between writing the cursor and removing the grant; history theorems speak about states between operations.
- GrantHistory.AccessWatcher.HandleStream: the handler never fails, since the files can always be written.
- SessionWait.ReplyIsRight: the sorting of a WaitResult by id and the other fields of a session are left out, and so is closing the event channel.
- SessionWait.NoLostWakeup: the subscription of one handler is modelled; others do not interact with it. A timeout may happen at any time the handler is blocked.
- SessionLogs.FollowLog: opening, seeking and reading fail as each poll says; closing the file is left out.
- SessionLogs.FollowLosesNothing: stripping of ANSI sequences is a parameter, and this theorem is about unstripped output: stripping works chunk by chunk and promises nothing across chunks. JSON encoding of a chunk that cuts a UTF-8 sequence is left out.
- WatchLines.JSONWriter.EmitLine: parsing a line as JSON, the filter, and the timestamp are left out; what is recorded is the text of the line. A line dropped by the filter counts as emitted successfully.
- SshConfig.SshConfigBlock: reading and replacing the config file; the path of the known-hosts file is a parameter.
- Paths.WithinIffUnder: `filepath.Clean` and `filepath.Rel` are modelled on Unix paths; the text of `Rel` is written out only as far as the containment test reads it, and is "." for equal paths.
- Mounts.Collapse: the walk over the directory tree and the reading of symbolic links; the candidate set is any set of usable paths.
- MountMerge.LimaAdditionalMounts: home directory lookup; the discovered mounts are a parameter.
- WarmPool.Pool.Assign: the random token is a parameter; freshness of tokens and pod names is an assumption of the state machine.
- WarmPool.PoolIsSafe: Kubernetes calls, the HTTP handlers and the deletion itself; a pod counts as deleted once it is handed to deletion. One replenish loop runs at a time, as in the source.
- Ports.WrittenPortReadsBack: YAML encoding and decoding is the given function `AsNode` between what the encoder receives and what the decoder passes on. Dafny's keyword `label` made the label field `tag`.
- PortForwards.AddLimaPortForwards: a nil instance; `limactl` is a success flag, and its list of edits is left out, since it holds the new entries once more.
- GuestWire.Conn.WriteMessage: write errors are left out, both writes of a frame are one step, and JSON encoding and decoding are parameters of `GuestExec`. `GuestWrites` takes each write as a step.
- GuestExec.ConversationShape: writing one message is one step, so that no frame is torn; a failed write of the agent is ignored there and left out here; a streamer ends when its pipe does.
- The session manager, the relay and peer servers, the key-value store, the virtual machine backends and the command line are not part of this model; they would add only easy members or foreign effects.
