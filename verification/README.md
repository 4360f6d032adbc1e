# OpenRBI: verified model of the protocol, lifecycle and policy core

OpenRBI runs browsers in disposable sandboxes on several nodes and relays their displays to users. This project
models the parts of its control plane and node agent that are protocols, parsers or state machines, and proves what
they keep over whole runs.

* **Clipboard filter** (`RfbBytes`, `RfbPixels`, `StreamParser`, `WireCodec`, `RfbClient`, `RfbServer`, `RfbFilters`, `Clipboard`).
  The relay drops clipboard messages from the RFB stream (RFC 6143 sections 7.5, 7.6 and 7.7). `StreamParser` is a
  theory of incremental parsers; `RfbPixels` is the payload of a Raw rectangle, as rows of pixels; `WireCodec` relates one to a message grammar; `RfbClient` and `RfbServer` hold the
  grammar of each direction and the framing decision of the filter; `RfbFilters` holds the two filter objects with
  their byte buffers and the pumps that feed them.
* **Session lifecycle** (`Sessions`, `SessionTransitions`, `SessionStore`). Every service call, display connection, reaper claim and
  reconciler verdict is an atomic step on one table; the theorems hold for every interleaving.
  `SessionTransitions` is the transition table in statuses and stamps alone. `SessionStore` is the object whose methods perform those steps field by field, and runs the two background jobs.
* **Orphan reconciliation** (`Reconciler`, `OrphanReconciler`). Containers and rows on several nodes, the two grace
  counters, and where cycles lead.
* **Policies** (`Text`, `SourceMatching`, `MimeMatching`, `PolicyEngine`, `PolicyVersions`, `PolicyStore`). The matchers,
  the decision procedure, and the versioned store that feeds it.
* **Quarantine** (`Quarantine`, `QuarantineOutcomes`, `QuarantineStore`, `Downloads`). Staging, scanning, review and retention of rows that
  share bytes stored once under their hash; `QuarantineOutcomes` says in statuses and times what becomes of a file;
  `Downloads` runs it beside the policy store.
* **Capacity and scheduling** (`Capacity`, `Scheduling`, `Enrolling`). From host readings to the node that is picked,
  and the trust gate in front of it.

Where the source assigns fields or loops, the model has a class or a loop, and each method is tied to a function of
the state (`State() == ...old(State())...`); the run theorems are lemmas about those functions, and the lemmas whose
names end in `Exactly` say in plain fields, without those functions, what each of them comes to. Agents, the virus
scanner, the clock and the URL parser appear as parameters: an `ok` flag or set, a scan outcome, a `now`, a function
`urlHost`. Ids of new rows are taken as fresh.

## Where the code and its promises differ

The model follows the code. Each point has a lemma with a concrete input and, where the promise can be kept, its exact
condition.

* A feed call that raises discards what it had parsed in that call, so how much of a failing stream was forwarded
  depends on the chunking (`RfbFilters.FailingStreamDependsOnChunks`). Every cutting forwards the same bytes if and only
  if the stream does not fail, or forwards nothing before it does (`StreamParser.ForwardsAlikeIff`); what is forwarded
  is always a prefix of the whole stream's output, and all of it when fed byte by byte.
* The client-side filter is described as always parsing; with nothing to enforce it passes bytes through, also ones no
  message begins with (`RfbFilters.PassthroughForwardsAnything`).
* The documentation says a session with a connected viewer is not timed out. With two tabs of which the newer is
  closed, it is (`Sessions.WatchedSessionCanBeClaimed`), as after an administrator's disconnect while the display
  connection lasts (`Sessions.DisconnectedViewerCanBeClaimed`). The condition is exact over runs of every kind of step:
  a usable session past the cutoff is the reaper's if and only if the step that last touched it was not the opening of
  a display (`Sessions.ReapableIffLastTouchNotOpening`).
* Two connections stamped at the same instant share a stamp, and closing the older one then disconnects the newer
  (`Sessions.EqualStampsDisconnect`). A close changes a row that shows another connection if and only if the stamps are
  equal (`Sessions.CloseTouchesOtherIffEqualStamps`); stamp ownership is proved for runs without equal stamps.
* A grace number of reconciler cycles need not reach a consistent state (`Reconciler.PlacementMatters`). It always does,
  whatever order nodes are visited in, if and only if the containers of rows about to fail are on their rows' nodes
  (`Reconciler.PlacementDecides`); twice the number always does (`Reconciler.ConvergesInTwiceGrace`).
* The grace number is documented as counting consecutive cycles, and the counter as dropped when the container is gone.
  It counts sightings: a cycle without an answer, or one that finds the container gone, neither counts nor resets
  (`Reconciler.NotInARow`, `Reconciler.GapIsNoReset`). Every teardown rests on that many sightings in a row if and only if
  the number is at most one (`Reconciler.InARowIff`).
* An extension pattern is documented as matching file extensions only, and a release rule with one as doing nothing.
  A pattern such as `.a/b` matches the MIME type `a/b`, and such a rule would release (`MimeMatching.DottedMimeTypeMatches`,
  `PolicyEngine.DeadRuleReleases`); the promise holds if and only if the pattern has no slash
  (`MimeMatching.ExtensionMatchesMimeTypeIff`, `PolicyEngine.DeadRulesNeverMatch`).
* A rise of the reported capacity is documented as needing successive polls at the new value; they only have to
  exceed the old one (`Capacity.RiseNeedsOnePollAtTheNewValue`). The documented recovery holds over every history if and
  only if at most one poll is asked for (`Capacity.RisesAreSustainedIff`); the default is three.
* An enrolled node is meant to be reached at its own endpoint, and never through the default agent once it had one. An
  approval without an endpoint is accepted, and a revoked node that is enrolled again keeps its row; in both cases calls
  go to the default agent (`Scheduling.ApprovedWithoutEndpoint`, `Scheduling.EnrolledAgain`). The condition is exact
  (`Scheduling.ReachedThrough`).
* Node selection's fallback for a store without approved nodes refreshes an existing row whatever its enrolment
  (`Scheduling.FallbackPicksRevoked`; exactly when, in `Scheduling.PickIsTrusted`).
* A file refused for its size and then released by a reviewer is RELEASED with no bytes to fetch
  (`Quarantine.ReleasedWithoutBytes`); every other released file has them (`Quarantine.ReleasedIsServable`).

## Model

| member | source | states |
|---|---|---|
| StreamParser.RunAppend | backend/app/core/rfb_clipboard_filter.py:138-153 | for any parser whose decisions are stable under later bytes: feeding `a` and then `b` equals feeding `a + b`, and after a refusal later bytes change nothing but the leftover |
| StreamParser.RunSettles | backend/app/core/rfb_clipboard_filter.py:138-153 | a feed call returns exactly when the parser waits, or refuses |
| StreamParser.RelayAgreesWithWhole | backend/app/api/display.py:174-203 | however a stream is cut up, the relay fails iff the stream taken whole does, with equal state and blocked flag; output and leftover are equal, or prefixes when it fails |
| StreamParser.ChunkingIndependent | backend/app/api/display.py:174-203 | two ways of cutting up one stream cannot be told apart, except by which prefix a failing one forwarded |
| StreamParser.BytewiseForwardsAll | backend/app/core/rfb_clipboard_filter.py:146-153 | fed one byte at a time, a failing stream too forwards everything the whole would yield |
| StreamParser.ForwardsAlikeIff | backend/app/core/rfb_clipboard_filter.py:146-153 | exactly when all cuttings of a stream forward the same bytes: iff it does not fail, or forwards nothing before it does |
| StreamParser.RunIdempotent | backend/app/core/rfb_clipboard_filter.py:138-153 | what one call forwards passes a second parser unchanged, to the same state |
| StreamParser.RelayIdempotent | backend/app/api/display.py:174-203 | the same over any relay, malformed streams included |
| StreamParser.UnchangingRelay | backend/app/api/display.py:191-203 | a relay whose setting may change between chunks, but does not, is the relay of one parser |
| StreamParser.ChangingIdempotent | backend/app/api/display.py:191-203 | with settings that change between chunks, filtering what was forwarded of each chunk again, under the same settings, changes nothing |
| WireCodec.RunOnMessages | backend/app/core/rfb_clipboard_filter.py:138-153 | if parser and grammar agree message by message, then on a list of messages and an incomplete tail the output is exactly the filtered list and the leftover exactly the tail |
| WireCodec.SplitMessages | backend/app/core/rfb_clipboard_filter.py:138-153 | every buffer is a list of valid messages followed by something that is not a whole one |
| WireCodec.RelayForwards | backend/app/api/display.py:174-203 | whatever arrives, what was forwarded is the filtered form of messages the input begins with; unless the parser refused, they and the leftover are the whole input and the state is theirs |
| WireCodec.ChangingForwards | backend/app/api/display.py:174-203 | the same when the setting changes between chunks, each chunk's messages valid under its own |
| WireCodec.FilteredValid | backend/app/core/rfb_clipboard_filter.py:138-153 | the filtered list is itself a valid stream, to the same state |
| RfbBytes.BigEndian | backend/app/core/rfb_clipboard_filter.py:200-206 | four bytes on the wire are a number most significant byte first; as a signed one the top bit counts negatively |
| RfbPixels.RasterLength | backend/app/core/rfb_clipboard_filter.py:357-366 | the rectangle's rows of pixels, each of the negotiated size, take exactly `Area` bytes on the wire |
| RfbPixels.AreaIsProduct | backend/app/core/rfb_clipboard_filter.py:357-366 | which is the product of width, height and bytes per pixel that the filter computes from the header |
| RfbPixels.PixelBytesOfReadRaster | backend/app/core/rfb_clipboard_filter.py:357-366 | any payload of that length is the rows of pixels of some raster of the announced shape |
| RfbClient.WireExactly | backend/app/core/rfb_clipboard_filter.py:155-246 | the type byte and the length of each of the eleven kinds of client message on the wire |
| RfbClient.PrintedFrame | backend/app/core/rfb_clipboard_filter.py:155-246 | every well-formed client message is framed at exactly its length, whatever follows |
| RfbClient.PrintOfDecode | backend/app/core/rfb_clipboard_filter.py:155-246 | every complete frame is the wire form of a well-formed message (decode, then print) |
| RfbClient.DecodeOfPrint | backend/app/core/rfb_clipboard_filter.py:155-246 | the wire form determines the message (print, then decode) |
| RfbClient.VerdictExact | backend/app/core/rfb_clipboard_filter.py:155-246 | a buffer is taken iff it begins with a message, waited on iff it is a proper beginning of one, refused iff neither |
| RfbClient.WaitCompletes | backend/app/core/rfb_clipboard_filter.py:155-246 | every buffer the filter waits on can still become a message |
| RfbClient.ClientParserSound | backend/app/core/rfb_clipboard_filter.py:155-251 | the client-side decision makes progress, is stable, looks no further than it consumes, and its output replays |
| RfbClient.ClientAgrees | backend/app/core/rfb_clipboard_filter.py:155-251 | parser and client grammar agree message by message in both directions, for every setting |
| RfbClient.ClientRunOnMessages | backend/app/core/rfb_clipboard_filter.py:138-251 | any list of client messages comes out with blocked cut text removed, restricted SetEncodings replaced by CopyRect and Raw, all else byte for byte; the leftover is the incomplete tail; a block is remembered iff a cut text was dropped |
| RfbClient.ClientNoLeak | backend/app/core/rfb_clipboard_filter.py:138-251 | on arbitrary bytes the output is a list of complete messages, none of them cut text when blocked, encodings only the forced ones when restricted; filtering it again changes nothing; unless the filter refused, messages and leftover are the whole input |
| RfbClient.ForcedPrint | backend/app/core/rfb_clipboard_filter.py:381-388 | the replacement message is a well-formed SetEncodings of CopyRect and Raw with the twelve bytes the filter sends |
| RfbServer.WireExactly | backend/app/core/rfb_clipboard_filter.py:284-373 | the first byte and the length of each kind of server unit on the wire, a Raw rectangle's by its pixels |
| RfbServer.PrintedFrame | backend/app/core/rfb_clipboard_filter.py:284-373 | every server unit that fits the state is framed at exactly its length, whatever its payload or what follows |
| RfbServer.PrintOfDecode | backend/app/core/rfb_clipboard_filter.py:284-373 | every complete frame is the wire form of a unit that fits |
| RfbServer.ServerVerdictExact | backend/app/core/rfb_clipboard_filter.py:284-373 | a buffer is taken iff it begins with a unit that fits; it is waited on iff it is a proper beginning of one, or a rectangle header of 9 to 11 bytes whose encoding already cannot be Raw or CopyRect |
| RfbServer.ServerParserSound | backend/app/core/rfb_clipboard_filter.py:284-378 | the server-side decision makes progress, is stable, local, and its output replays |
| RfbServer.ServerAgrees | backend/app/core/rfb_clipboard_filter.py:284-373 | parser and server grammar agree unit by unit in both directions |
| RfbServer.CounterIsAnnouncedMinusConsumed | backend/app/core/rfb_clipboard_filter.py:293-299 | over any valid stream the rectangle counter is what was announced minus what was consumed |
| RfbServer.ServerRunOnMessages | backend/app/core/rfb_clipboard_filter.py:271-373 | for any list of server messages with any CopyRect rectangles and any Raw ones, given as rows of pixels of the negotiated size, the output is the input with exactly the cut-text messages deleted, an empty buffer and no rectangle outstanding: no payload byte is read as a header |
| RfbServer.BlockedIffCutText | backend/app/core/rfb_clipboard_filter.py:313-324 | a block is remembered iff a cut-text message was dropped |
| RfbServer.ServerNoLeak | backend/app/core/rfb_clipboard_filter.py:271-378 | on arbitrary bytes the output is a valid sequence of complete units the stream began with, without cut text when blocked; filtering it again changes nothing; unless the filter refused, units and leftover are the whole input and the counter is announced minus consumed |
| RfbServer.ChangingNoLeak | backend/app/core/rfb_clipboard_filter.py:348-373 | the same whatever pixel formats the client sets between chunks: complete units valid under the format in force, no blocked cut text, leftover and counter accounted for, and filtering each chunk's output again under the same formats changes nothing |
| RfbFilters.BuildSetEncodings | backend/app/core/rfb_clipboard_filter.py:381-388 | the builder's output is the wire form of the given list |
| RfbFilters.ClientToServerFilter.TakeOne | backend/app/core/rfb_clipboard_filter.py:155-246 | one step on the buffer, shared pixel format and flag is the step of the parser |
| RfbFilters.ClientToServerFilter.Feed | backend/app/core/rfb_clipboard_filter.py:138-153 | one call equals a run of the parser on buffer plus data: result, leftover, pixel format and flag; pure passthrough when nothing is enforced; what that sends in the two settings themselves is `RfbFilters.ClientSendsPermitted` |
| RfbFilters.PumpToAgent | backend/app/api/display.py:174-189 | the bytes sent, the teardown and the filter's final state are those of the relay |
| RfbFilters.ClientSendsPermitted | backend/app/api/display.py:174-189 | for all four settings of the two booleans and any list of messages in any chunks, the pump sends the list without cut text when that is blocked and with every SetEncodings asking for CopyRect and Raw when encodings are restricted; nothing is kept back |
| RfbFilters.ClientSendsOnlyPermitted | backend/app/core/rfb_clipboard_filter.py:138-251 | on arbitrary bytes with either boolean set, what is sent is that form of complete messages the input begins with, without cut text or with the forced encodings only |
| RfbFilters.PassthroughIffNothingSet | backend/app/core/rfb_clipboard_filter.py:138-144 | whatever arrives is passed on unchanged iff neither boolean is set |
| RfbFilters.ClientChunking | backend/app/core/rfb_clipboard_filter.py:138-251 | chunking independence for every client-side setting |
| RfbFilters.ServerToClientFilter.TakeRect | backend/app/core/rfb_clipboard_filter.py:348-373 | one rectangle step on the object is the step of the parser, whose frames are those of rasters (`RfbServer.PrintedFrame`) |
| RfbFilters.ServerToClientFilter.TakeOne | backend/app/core/rfb_clipboard_filter.py:284-346 | one step on buffer, rectangle counter and flag is the step of the parser |
| RfbFilters.ServerToClientFilter.Feed | backend/app/core/rfb_clipboard_filter.py:271-282 | one call equals a run of the parser; passthrough without restricted encodings |
| RfbFilters.PumpToBrowser | backend/app/api/display.py:191-203 | for any pixel formats the other pump sets between chunks, the bytes sent, the teardown and the filter's final state are those of the changing relay |
| RfbFilters.PumpWithOneFormat | backend/app/api/display.py:191-203 | with one pixel format throughout that is the relay of one parser |
| RfbFilters.ServerSends | backend/app/api/display.py:191-203 | for any list of server messages in any chunks, the pump sends the list without cut text if encodings are restricted and cut text is blocked, else the list |
| RfbFilters.FailingStreamDependsOnChunks | backend/app/core/rfb_clipboard_filter.py:146-153 | a key event and then a byte of no known type: nothing is forwarded in one chunk, the key event in two |
| RfbFilters.ClientForwardsAlikeIff | backend/app/core/rfb_clipboard_filter.py:138-153 | exactly which client-side streams forward the same bytes however they are cut, for every setting |
| RfbFilters.ServerForwardsAlikeIff | backend/app/core/rfb_clipboard_filter.py:271-282 | and which server-side streams |
| RfbFilters.PassthroughForwardsAnything | backend/app/core/rfb_clipboard_filter.py:138-144 | with nothing to enforce a byte no message begins with is forwarded |
| RfbFilters.ServerChunking | backend/app/core/rfb_clipboard_filter.py:271-378 | chunking independence for every server-side setting |
| RfbFilters.BuildFilters | backend/app/core/rfb_clipboard_filter.py:108-121 | the pair shares one pixel format, starts empty, and blocks a direction iff the mode disallows it |
| RfbFilters.FiltersForPolicies | backend/app/services/policy_engine.py:219-241 | in the texts of the policies: the filters block client to server iff some policy says NONE or REMOTE_TO_LOCAL, server to client iff some says NONE or LOCAL_TO_REMOTE, restrict encodings iff the latter, and enforce nothing when none sets a mode |
| Clipboard.ResolveClipboardPolicy | backend/app/services/policy_engine.py:219-241 | the resolved mode allows a direction iff every valid policy does |
| Clipboard.ModeIgnoresOrder | backend/app/services/policy_engine.py:219-241 | the mode depends on neither order nor repetition of the policies |
| Clipboard.ParseModeExactly | backend/app/services/policy_engine.py:193-216 | a policy has a say iff its content names one of the four modes |
| Clipboard.EnforcementForMode | backend/app/core/rfb_clipboard_filter.py:89-93 | a direction is blocked iff the mode does not allow it |
| Sessions.DeathIsFinal | backend/app/services/sessions.py:288-321 | over any run no row disappears, a session being torn down never becomes live again, and TERMINATED is frozen and dated |
| Sessions.IsolationEndedBy | backend/app/api/sessions.py:116-130 | whatever run ends an isolation contains an administrator's end, revoke or restore, or a lost verdict; never only the owner or the reaper |
| Sessions.ViewersOwnedThroughout | backend/app/api/display.py:159-165 | for tabs opened and closed in any order among all other steps, a stored stamp and a registry entry always belong to a connection still open, given unique stamps |
| Sessions.CloseTouchesOnlyItsOwnStamp | backend/app/api/display.py:243-267 | whatever the stamps, a close changes its row iff the stored stamp equals its own, and the status iff the session was ACTIVE besides, to DISCONNECTED; no other row changes |
| Sessions.CloseTouchesOtherIffEqualStamps | backend/app/api/display.py:243-267 | closing a connection changes a row that shows another of the session iff their stamps are equal |
| Sessions.EqualStampsDisconnect | backend/app/api/display.py:243-267 | uniqueness matters: with equal stamps closing the older tab disconnects the newer |
| Sessions.RowShowsLastOpener | backend/app/api/display.py:159-165 | after any run of any steps, status, stamp and registry of a usable session show exactly the connection whose opening touched it last, and that one is still open, given unique stamps |
| Sessions.RowFollowsLastTab | backend/app/api/display.py:159-165 | for runs of tabs on a disconnected session, in terms of tabs: the row is ACTIVE with a viewer iff the tab opened last is still open, and shows exactly it |
| Sessions.AttendedIffLastTouchOpens | backend/app/api/display.py:159-165 | after any run of any steps a usable session is ACTIVE with a viewer iff the step that last touched it opened a display |
| Sessions.ReapableIffLastTouchNotOpening | backend/app/core/session_reaper.py:83-95 | for every run of any steps that leaves a session usable and past the cutoff, the reaper's claim matches iff the step that last touched it was not an opening |
| Sessions.ReapableIffLastTabClosed | backend/app/core/session_reaper.py:83-95 | the same for runs of tabs only, in terms of tabs: iff the tab opened last is closed, older open ones notwithstanding |
| Sessions.WatchedSessionCanBeClaimed | backend/app/core/session_reaper.py:83-95 | a session with an open older tab for which the claim matches |
| Sessions.DisconnectedViewerCanBeClaimed | backend/app/services/sessions.py:436-453 | a session with one open tab, disconnected by an administrator, for which the claim matches |
| Sessions.ReaperSparesTouched | backend/app/core/session_reaper.py:102-122 | between the SELECT and the claim, any interleaving in which somebody connected, disconnected, restored or reset the session makes the claim match nothing |
| Sessions.RecentStaysRecent | backend/app/core/session_reaper.py:83-87 | a session with activity at or after the cutoff keeps it so over any run of later steps |
| Sessions.RecoverySparesChanged | backend/app/core/session_reaper.py:183-199 | between the stuck recovery's SELECT and its claim, any step that changed the row makes the claim match nothing |
| Sessions.ClaimedEndsSettled | backend/app/core/session_reaper.py:102-135 | every session a cycle of the reaper or of the stuck recovery claims ends it TERMINATED or FAILED, whatever steps fall between its turns and between a committed claim and the end of its teardown |
| SessionTransitions.CreateExactly | backend/app/services/sessions.py:230-285 | a new session is ACTIVE with start, activity and creation at one instant, or FAILED and never started; nobody watches it, other rows stay |
| SessionTransitions.EndExactly | backend/app/services/sessions.py:288-360 | for every status and every way to end a session: when it is refused, that TERMINATED is left alone, else TERMINATED and dated if the agent answers, FAILED if not; other rows stay |
| SessionTransitions.IsolateExactly | backend/app/services/sessions.py:363-405 | an ACTIVE or DISCONNECTED session becomes ISOLATED if the agent confirms, else FAILED; any other is refused unchanged |
| SessionTransitions.RestoreExactly | backend/app/services/sessions.py:408-433 | an ISOLATED session becomes ACTIVE, without viewer and with a new clock, or FAILED; any other is refused unchanged |
| SessionTransitions.DisplayExactly | backend/app/api/display.py:118-165 | an opened display makes a usable session ACTIVE with its stamp as viewer and activity; a forced disconnect makes it DISCONNECTED and leaves the viewer |
| SessionTransitions.CloseExactly | backend/app/api/display.py:207-267 | what a close does to connections, registry and row, field by field |
| SessionTransitions.ResetExactly | backend/app/api/display.py:49-71 | a restart clears every stamp and restarts the clock of exactly the rows that were ACTIVE or had one |
| SessionTransitions.ReaperClaimExactly | backend/app/core/session_reaper.py:83-122 | the claim matches a DISCONNECTED or unwatched ACTIVE session whose last activity, else start, else creation, is before the cutoff, and makes it TERMINATING |
| SessionTransitions.LostExactly | backend/app/core/orphan_reconciler.py:279-289 | a lost verdict fails and dates an ACTIVE, DISCONNECTED, ISOLATING or ISOLATED session, and no other |
| SessionTransitions.BecomesIsolatedIff | backend/app/services/sessions.py:363-405 | a row becomes ISOLATED in a step iff the step is an isolation of an ACTIVE or DISCONNECTED session that the agent confirmed |
| SessionTransitions.LeavesIsolationIff | backend/app/api/sessions.py:116-130 | a step ends an isolation iff it is an administrator's kill, revocation or restore, or a lost verdict |
| SessionTransitions.BecomesActiveIff | backend/app/services/sessions.py:408-433 | an existing row becomes ACTIVE iff a display is opened on a DISCONNECTED session or a restore of an ISOLATED one is confirmed |
| SessionTransitions.BecomesTerminatedIff | backend/app/services/sessions.py:288-314 | for each status, exactly which events make the row TERMINATED |
| SessionTransitions.IsolatedHow | backend/app/services/sessions.py:363-405 | over any run, a session that is ISOLATED in the end became so by a confirmed isolation of an ACTIVE or DISCONNECTED one and has been ISOLATED ever since |
| SessionTransitions.MovesAreArrows | docs/session-lifecycle.md:25-42 | the status changes a step can make are exactly the arrows of the lifecycle, each taken from any row of that status, the reaper's only from one nobody is shown as watching |
| SessionTransitions.TouchesIffStamped | backend/app/core/session_reaper.py:83-87 | the steps that count as dealing with a session are exactly those that stamp its activity |
| SessionTransitions.RecoveryMatchesExactly | backend/app/core/session_reaper.py:183-199 | the stuck recovery claims a row iff it still is in the STARTING or TERMINATING it was seen in, unchanged since before the cutoff |
| SessionTransitions.QuietTurnExactly | backend/app/core/session_reaper.py:102-150 | an undisturbed turn of either job leaves a session it claims TERMINATED and dated, or FAILED, and everything else unchanged |
| SessionTransitions.CountIsCardinality | backend/app/core/session_reaper.py:124-150 | the count a cycle returns is the number of turns that ended a session |
| SessionStore.SessionStore.CreateSession | backend/app/services/sessions.py:211-285 | refused unchanged at the quota or without a node; else the creation step, ACTIVE and stamped or FAILED; it never takes the user above the quota |
| SessionStore.SessionStore.TerminateSession | backend/app/services/sessions.py:288-314 | idempotent on TERMINATED; else TERMINATED and dated, or FAILED with an error |
| SessionStore.SessionStore.OwnerEndSession | backend/app/api/sessions.py:116-137 | the owner's step, refused unchanged during isolation, successful iff it leaves the row TERMINATED |
| SessionStore.SessionStore.RevokeUserSessions | backend/app/services/sessions.py:327-360 | exactly the user's live sessions go through terminate, and the result lists exactly those that ended |
| SessionStore.RevocationExactly | backend/app/services/sessions.py:317-360 | row by row: the user's sessions that are not ending or ended, isolated ones included, become TERMINATED and dated or FAILED; all others stay |
| SessionStore.CountedExactly | backend/app/services/sessions.py:191-208 | a session stops counting against the limit iff it is isolated or being isolated, ending, or ended |
| SessionStore.SessionStore.IsolateSession | backend/app/services/sessions.py:363-405 | the isolation step, exactly when it succeeds, and the status it leaves in each case |
| SessionStore.SessionStore.RestoreSession | backend/app/services/sessions.py:408-433 | the restore step, exactly when it succeeds, and the status it leaves in each case |
| SessionStore.SessionStore.DisconnectSession | backend/app/services/sessions.py:436-453 | the admin disconnect step, and exactly when it is accepted |
| SessionStore.SessionStore.OpenDisplay | backend/app/api/display.py:101-165 | accepted iff origin, owner, status, node token and relay all allow it; the opening step on row, stamp and registry, or nothing |
| SessionStore.SessionStore.CloseDisplay | backend/app/api/display.py:207-267 | the closing step, and exactly when it disconnected the session |
| SessionStore.SessionStore.ResetViewerStamps | backend/app/api/display.py:49-71 | the startup reset of every row with a stamp or ACTIVE |
| SessionStore.SessionStore.SelectUnattended | backend/app/core/session_reaper.py:97-100 | lists once each exactly the rows the WHERE clause matches, with their status |
| SessionStore.SessionStore.ClaimAndTerminate | backend/app/core/session_reaper.py:102-150 | one candidate: acts iff the claim matches, lets others step during the teardown, and counts iff the session ended TERMINATED |
| SessionStore.SessionStore.ReapOnce | backend/app/core/session_reaper.py:68-150 | the cycle over exactly the unattended rows, with any steps of others before each claim and during each teardown; the count is of the sessions really ended |
| SessionStore.SessionStore.RecoverStuckOnce | backend/app/core/session_reaper.py:159-228 | the same cycle over exactly the rows in STARTING or TERMINATING unchanged since the cutoff, each claimed only if that still holds |
| Reconciler.VisitChangesRowsByLostFail | backend/app/core/orphan_reconciler.py:250-289 | a visit changes a row only by the lost verdict of the session state machine, and only rows pinned to the node |
| Reconciler.ConvergesInGrace | backend/app/core/orphan_reconciler.py:119-343 | with all nodes approved, answering and removing, and the containers of rows about to fail on their rows' nodes (`Placed`), the grace number of cycles leaves no managed container without a live row and no live row without a running container (in plain statuses: `Reconciler.ConvergedIsConsistent`) |
| Reconciler.ConvergesInTwiceGrace | backend/app/core/orphan_reconciler.py:119-343 | the same in twice the number for containers on any node |
| Reconciler.PlacementDecides | backend/app/core/orphan_reconciler.py:119-343 | exactly when one grace period is enough for every visiting order: iff the containers of rows about to fail are on their rows' nodes, for every such state and grace number |
| Reconciler.MisplacedNeedsLonger | backend/app/core/orphan_reconciler.py:119-343 | from any state with such a container elsewhere, the grace number of cycles that visit it before its row's node does not converge |
| Reconciler.PlacementMatters | backend/app/core/orphan_reconciler.py:119-343 | one such state, for every grace number |
| Reconciler.ConvergedIsConsistent | backend/app/core/orphan_reconciler.py:78-99 | convergence in plain statuses: every managed container has a row that is neither TERMINATED nor FAILED, and every ACTIVE, DISCONNECTED, ISOLATING or ISOLATED row pinned to a node has a running container there |
| Reconciler.ColocationDecides | backend/app/core/orphan_reconciler.py:119-343 | one grace period leads there in every visiting order iff the containers of rows that should run and do not are on their rows' nodes, both sides in plain statuses |
| Reconciler.QueriedConverges | backend/app/core/orphan_reconciler.py:316-343 | convergence for rounds that each take the order of their own node query |
| Reconciler.OutageFailsSessions | backend/app/core/orphan_reconciler.py:241-277 | a node that is silent or revoked for the grace number of cycles ends with no live session, whatever other nodes do |
| Reconciler.ConvergesAfterOutage | backend/app/core/orphan_reconciler.py:119-343 | after any rounds in which nodes are silent and removals are refused, one further grace period of answering agents leaves no leftover container and no session without one |
| Reconciler.VisitIsSight | backend/app/core/orphan_reconciler.py:169-209 | what a visit sees determines the counters after it, and it removes exactly the due containers |
| Reconciler.CounterCountsSightings | backend/app/core/orphan_reconciler.py:185-198 | a counter is the number of orphan sightings since some point after its last reset; cycles without sight do not count and do not reset |
| Reconciler.GapIsNoReset | backend/app/core/orphan_reconciler.py:185-198 | for every grace number above one, a teardown with a cycle in between that got no answer or found the container gone |
| Reconciler.NotInARow | backend/app/core/orphan_reconciler.py:103-110 | one such run of three sights |
| Reconciler.InARowIff | backend/app/config.py:154-158 | every teardown rests on the grace number of sightings in a row iff that number is at most one |
| Reconciler.TornDownOnlyAfterGrace | backend/app/core/orphan_reconciler.py:193-209 | over any list of sightings a container is due only when seen without a live row, after the grace number of such sightings with no reset between |
| Reconciler.RunIsSights | backend/app/core/orphan_reconciler.py:169-209 | over any run of visits, changes by others and restarts, the counters are those of what the visits saw |
| Reconciler.RemovedHow | backend/app/core/orphan_reconciler.py:200-277 | a visit removes a container only from its node, and only as a due orphan or as the stopped container of a live row of that node |
| Reconciler.VisitRemovesExactly | backend/app/core/orphan_reconciler.py:169-277 | a visit removes a container iff the agent answers and does not refuse, and this completes the grace number of sightings of it without a row or with a TERMINATED or FAILED one, or stopped under a row that should run; other nodes are untouched |
| Reconciler.VisitFailsExactly | backend/app/core/orphan_reconciler.py:234-289 | a visit fails and dates a row iff it is ACTIVE, DISCONNECTED, ISOLATING or ISOLATED, pinned to the node, without a running container for the grace number of visits, and its cleanup does not fail |
| Reconciler.VisitCountsExactly | backend/app/core/orphan_reconciler.py:185-256 | what a visit makes of both counters of a session |
| Reconciler.NodeQueryExactly | backend/app/core/orphan_reconciler.py:316-343 | a cycle visits the approved nodes, and the revoked ones with a session that should still run |
| Reconciler.RemovedOnlyAfterGrace | backend/app/core/orphan_reconciler.py:193-209 | over any such run the forward direction removes a container only when it has no live row, and after the grace number of sightings without one and no reset between |
| Reconciler.CommittedInTimeIsSafe | backend/app/services/sessions.py:230-285 | over any list of sightings, a container with a live row before the grace-th sighting is never due in the forward direction |
| Reconciler.CommittedIsRemovedOnlyStopped | backend/app/services/sessions.py:230-285 | over any run, a sandbox whose creating transaction commits before the grace-th sighting is never removed by the forward direction while its row is live; a visit that removes it cleans up after it stopped |
| OrphanReconciler.CountObservations | backend/app/core/orphan_reconciler.py:185-198 | the forgetting and counting loops give the counter function and exactly the due ids |
| OrphanReconciler.OrphanReconciler.TerminateDue | backend/app/core/orphan_reconciler.py:200-231 | the termination loop forgets all due ids and removes exactly those the agent does not refuse |
| OrphanReconciler.OrphanReconciler.FailDue | backend/app/core/orphan_reconciler.py:257-304 | the finishing loop fails exactly the due rows whose cleanup did not fail, and keeps the counters of the others |
| OrphanReconciler.OrphanReconciler.ReconcileNode | backend/app/core/orphan_reconciler.py:119-313 | the method is the visit function, which `Reconciler.VisitRemovesExactly`, `VisitFailsExactly` and `VisitCountsExactly` state in plain statuses |
| OrphanReconciler.OrphanReconciler.ReconcileOnce | backend/app/core/orphan_reconciler.py:316-343 | the job visits exactly the selected nodes once each, and is the cycle function |
| OrphanReconciler.OrphanReconciler.PollLoop | backend/app/core/orphan_reconciler.py:346-353 | repeating the job, in the orders its own queries give, converges within the grace number of ticks when placed and healthy |
| Text.JoinOfSplit | backend/app/core/source_matching.py:12-39 | joining the parts of a name gives the name back |
| Text.SplitAtSeparator | backend/app/core/source_matching.py:12-39 | splitting distributes over a separator |
| Text.LowerByAlphabet | backend/app/core/mime_matching.py:17-36 | lower-casing is character by character along the alphabet |
| Text.StripExactly | backend/app/core/source_matching.py:12-19 | stripping cuts blanks, and nothing else, from both ends until none is there |
| SourceMatching.WildcardIsLabelSuffix | backend/app/core/source_matching.py:35-37 | the string test for `*.base` succeeds iff the labels of base end the labels of the host |
| SourceMatching.MatchesWholeLabels | backend/app/core/source_matching.py:22-39 | for all hosts and patterns a source rule matches iff the labels are equal, or for a wildcard the labels after the star end those of the host; never for an empty name |
| SourceMatching.NormalForm | backend/app/core/source_matching.py:12-19 | what a host that is no URL is compared as: its name without surrounding blanks and trailing dots, letters folded |
| MimeMatching.WildcardMatchesParts | backend/app/core/mime_matching.py:32-34 | `type/*` matches iff the slash-separated parts of the value go on after those of the pattern |
| MimeMatching.ExtensionMatchesExactly | backend/app/core/mime_matching.py:29-30 | an extension pattern matches iff the two names are equal but for case, surrounding blanks and leading dots |
| MimeMatching.OtherPatternsMatchEqual | backend/app/core/mime_matching.py:35-36 | a pattern that is neither an extension nor a wildcard matches exactly its own type |
| MimeMatching.NothingMatchesAbsent | backend/app/core/mime_matching.py:17-27 | no pattern matches a missing or empty value |
| MimeMatching.ExtensionPatternExactly | backend/app/core/mime_matching.py:11-14 | a pattern is for extensions iff its first character that is not blank is a dot |
| MimeMatching.ExtensionMatchesMimeTypeIff | backend/app/core/mime_matching.py:11-14 | an extension pattern matches some value with a slash, as every MIME type has, iff it has a slash itself |
| MimeMatching.DottedMimeTypeMatches | backend/app/core/mime_matching.py:11-14 | `.a/b` is an extension pattern and matches `a/b` |
| PolicyEngine.EvaluateFileAction | backend/app/services/policy_engine.py:98-147 | the loop returns the first of the strictest matching rules, QUARANTINE if none matches, and the action is that of the set of rules, which `PolicyEngine.DecidedExactly` states field by field |
| PolicyEngine.ActionIgnoresOrder | backend/app/services/policy_engine.py:22 | neither order nor repetition of rules changes the action |
| PolicyEngine.StrictMimeRuleApplies | backend/app/services/policy_engine.py:108-122 | a DENY or QUARANTINE MIME rule applies iff its pattern fits the detected type, the declared type or the extension |
| PolicyEngine.ReleasingMimeRuleApplies | backend/app/services/policy_engine.py:108-122 | an AUTO_RELEASE MIME rule applies iff its pattern fits the detected type |
| PolicyEngine.SourceRuleApplies | backend/app/services/policy_engine.py:108-122 | a SOURCE rule applies iff there is a nonempty host and its labels fit |
| PolicyEngine.MatchesIffApplies | backend/app/services/policy_engine.py:108-122 | the engine's match is that application, for every rule |
| PolicyEngine.DecidedExactly | backend/app/services/policy_engine.py:98-147 | DENY iff some live DENY rule so applies; QUARANTINE iff none does and a QUARANTINE rule applies or nothing does; AUTO_RELEASE iff only AUTO_RELEASE rules apply |
| PolicyEngine.AutoReleaseExactly | backend/app/services/policy_engine.py:98-147 | a release iff some AUTO_RELEASE rule matches and no stricter rule does |
| PolicyEngine.SenderFieldsNeverLoosen | backend/app/services/policy_engine.py:108-122 | adding an extension or a declared type where there was none keeps or raises the strictness, and never releases |
| PolicyEngine.GroupsCombine | backend/app/services/policy_engine.py:19-22 | of two groups with a say the stricter decides; a group without one changes nothing |
| PolicyEngine.DeadRuleMatchesExactly | backend/app/services/policies.py:41-49 | a release rule the validator refuses matches exactly the files whose detected type is its pattern but for case, blanks and dots |
| PolicyEngine.DeadRuleExactly | backend/app/services/policies.py:28-57 | the validator refuses a rule iff it is an AUTO_RELEASE MIME rule on an extension |
| PolicyEngine.DeadRulesNeverMatch | backend/app/services/policies.py:41-49 | it does nothing to files with a detected MIME type, as promised, iff its pattern has no slash |
| PolicyEngine.DeadRuleReleases | backend/app/services/policies.py:41-49 | a refused rule that alone would release a file |
| PolicyEngine.ResolveSessionResolution | backend/app/services/policy_engine.py:150-190 | the first of the smallest valid areas, the default if there is none |
| PolicyEngine.AreaIgnoresOrder | backend/app/services/policy_engine.py:157-162 | the chosen area does not depend on the order of policies |
| PolicyEngine.ResolutionExactly | backend/app/services/policy_engine.py:150-190 | in widths and heights: the resolved screen is one of the valid ones and none is smaller in area |
| PolicyVersions.PublishedIsCurrent | backend/app/services/policies.py:142-168 | in every reachable store a published version is its policy's current one, and no policy has two |
| PolicyVersions.ArchivedIsDetached | backend/app/services/policies.py:204-250 | in every reachable store an archived policy is attached to no group |
| PolicyVersions.PublishedTextIsFinal | backend/app/services/policies.py:121-139 | over any run a version that has left DRAFT keeps its rules and content and is never a draft again |
| PolicyVersions.QuietStepsChangeNothing | backend/app/services/policies.py:204-237 | drafting, editing drafts, archiving, restoring and refused calls change what is live for no user |
| PolicyVersions.ActivationIsLocal | backend/app/services/policies.py:142-201 | publishing or rolling back leaves other policies' live versions alone and makes exactly the chosen version live where attached |
| PolicyVersions.RollbackRestores | backend/app/services/policies.py:171-201 | after any run with the same attachments and nothing else published elsewhere, rolling back to a once current version gives every user exactly what was live then; refused iff it is still current |
| PolicyVersions.RollbackRestoresSettings | backend/app/services/policy_engine.py:150-241 | it also gives back the clipboard mode and the screen area, whatever order the queries answer in |
| PolicyVersions.ReleaseNeedsTypeOrSource | backend/app/services/policy_engine.py:98-147 | in a sound store a release comes from a live AUTO_RELEASE rule that matches without extension and declared type, and every live rule that matches is one |
| PolicyVersions.AcceptedExactly | backend/app/services/policies.py:89-257 | exactly when each operation is accepted, in the fields of policies, versions and attachments |
| PolicyVersions.WritesExactly | backend/app/services/policies.py:89-257 | and what each accepted operation writes, everything else unchanged |
| PolicyVersions.ActivationExactly | backend/app/services/policies.py:142-201 | publishing and rolling back make the version current and PUBLISHED and the one before SUPERSEDED, and nothing else |
| PolicyVersions.DetachedIsNotLive | backend/app/services/policies.py:253-257 | no version of a detached policy is live for the group |
| PolicyVersions.AttachedIsLive | backend/app/services/policies.py:240-250 | attaching makes the policy's current version, with its rules, live for the group |
| PolicyVersions.RestoredCanBeAttached | backend/app/services/policies.py:226-250 | an archived policy cannot be attached, a restored one can |
| PolicyVersions.LiveRulesExactly | backend/app/services/policy_engine.py:77-95 | a rule governs a user iff it is a rule of a PUBLISHED version that is the current one of a policy attached to one of the groups |
| PolicyVersions.LiveContentsExactly | backend/app/services/policy_engine.py:150-241 | likewise the contents a query for one kind of setting ranges over |
| PolicyStore.BuildFileRules | backend/app/services/policies.py:28-57 | succeeds with the list unchanged iff it has no AUTO_RELEASE rule on an extension |
| PolicyStore.PolicyStore.CreateDraftVersion | backend/app/services/policies.py:89-118 | the drafting step; a refused rule leaves the version without rules |
| PolicyStore.PolicyStore.UpdateDraftVersion | backend/app/services/policies.py:121-139 | the editing step; a refused call changes nothing |
| PolicyStore.PolicyStore.PublishVersion | backend/app/services/policies.py:142-168 | the publishing step and its refusals |
| PolicyStore.PolicyStore.RollBack | backend/app/services/policies.py:171-201 | the rollback step and its refusals |
| PolicyStore.PolicyStore.ArchivePolicy | backend/app/services/policies.py:204-223 | the archiving step, refused while attached or archived |
| PolicyStore.PolicyStore.RestorePolicy | backend/app/services/policies.py:226-237 | the restoring step, refused unless archived |
| PolicyStore.PolicyStore.AttachPolicyToGroup | backend/app/services/policies.py:240-250 | idempotent attachment, refused for an archived policy |
| PolicyStore.PolicyStore.DetachPolicyFromGroup | backend/app/services/policies.py:253-257 | the detaching step |
| PolicyStore.PolicyStore.EvaluateFileActionFor | backend/app/services/policy_engine.py:77-147 | for any result of the rule query the decision is that of the live versions, and names one of their rules |
| Quarantine.StoreAgreesWithRows | backend/app/core/quarantine_retention.py:84-168 | after any run, removals allowed to fail, a staged file exists iff some live row with a storage id carries its hash, and one session has one row per content; assuming no content hashes like a size-rejection label |
| Quarantine.BytesOutliveRows | backend/app/core/quarantine_retention.py:84-168 | without that assumption: no step removes bytes a row still refers to |
| Quarantine.ReleasedIsServable | backend/app/services/downloads.py:70-116 | a released row has its bytes iff the file was fetched at all |
| Quarantine.ReleasedWithoutBytes | backend/app/services/downloads.py:70-116 | an oversized file, released by a reviewer, with nothing on disk |
| Quarantine.IncidentKeepsBytes | backend/app/core/quarantine_retention.py:74-97 | a row under an open incident keeps row and bytes through any cycle |
| Quarantine.RetentionExactly | backend/app/core/quarantine_retention.py:95-168 | one cycle deletes an expired row iff it has no open incident and it has no bytes, they can be removed, or another live row, not yet reached or kept by an incident, shares them; otherwise the row is unchanged |
| Quarantine.RejectedStaysRejected | backend/app/services/quarantine.py:13-61 | over any run a rejected or deleted file is never released and a released one is only ever deleted |
| Quarantine.ReleasedHow | backend/app/services/scanning.py:81-123 | every released file was released by a clean scan of a file the live rules release, or by a reviewer out of quarantine |
| Quarantine.UnreviewedRelease | backend/app/services/scanning.py:81-123 | without a review, the rules given at staging had an AUTO_RELEASE rule that matched, every one that matched was one, and the scan was clean |
| Downloads.AutomaticRelease | backend/app/services/downloads.py:140-185 | over any run of policy store and quarantine together, a file released without review was staged when some version then published for its user had an AUTO_RELEASE rule that matched its detected type or origin, and every rule published for the user that matched was one; the scan was clean |
| Downloads.ReleasedAt | backend/app/services/scanning.py:81-123 | over any such run a released file was released by its staging or by a reviewer |
| Quarantine.RestagingDoesNothing | backend/app/services/downloads.py:125-138 | staging content the session already has a row for changes nothing |
| QuarantineOutcomes.StageExactly | backend/app/services/scanning.py:16-123 | the row, the bytes and the incident staging leaves for each scan outcome and decision: RELEASED iff clean and released by the rules, REJECTED iff clean and denied, else QUARANTINED |
| QuarantineOutcomes.OversizedExactly | backend/app/services/downloads.py:70-116 | a file too large to fetch is a QUARANTINED row without bytes or decision |
| QuarantineOutcomes.ReviewExactly | backend/app/services/quarantine.py:13-61 | a review moves a QUARANTINED row, records reviewer and time, and touches nothing else |
| QuarantineOutcomes.StatusIsExplained | backend/app/services/scanning.py:81-123 | over any run: a row nobody reviewed has, until deleted, the status its scan and its rules gave it; infected and unscannable files are QUARANTINED |
| QuarantineOutcomes.ReviewedHow | backend/app/services/quarantine.py:13-61 | over any run the reviewer and time on a row are those of a release or reject of it out of QUARANTINED, and its status that decision's until deleted |
| QuarantineOutcomes.ExpiredIsPastWindow | backend/app/core/quarantine_retention.py:135-162 | a released row expires after the released window, a quarantined or rejected one after the quarantined window, from its review if there was one, else from its creation |
| QuarantineOutcomes.CleanCycleExactly | backend/app/core/quarantine_retention.py:84-168 | when removals succeed, a cycle deletes exactly the rows past their window and under no open incident |
| QuarantineOutcomes.DeletedHow | backend/app/core/quarantine_retention.py:84-168 | over any run, a deleted row was deleted by a retention cycle when past its window and under no open incident |
| QuarantineStore.QuarantineStore.ScanAndFinalize | backend/app/services/scanning.py:16-123 | branch by branch, the final row and the incident of an infected one |
| QuarantineStore.QuarantineStore.ProcessDownload | backend/app/services/downloads.py:70-186 | one listed file: oversized, unfetchable, duplicate or staged, decided and scanned |
| QuarantineStore.QuarantineStore.ProcessNewDownloads | backend/app/services/downloads.py:36-195 | the loop over all listed files, and that it reports exactly the new rows |
| QuarantineStore.QuarantineStore.ReleaseFile | backend/app/services/quarantine.py:13-38 | the release step, accepted iff QUARANTINED |
| QuarantineStore.QuarantineStore.RejectFile | backend/app/services/quarantine.py:41-61 | the reject step, accepted iff QUARANTINED |
| QuarantineStore.QuarantineStore.DeleteOne | backend/app/core/quarantine_retention.py:95-132 | the deletion step with its incident, sharing and failure branches |
| QuarantineStore.QuarantineStore.SelectExpired | backend/app/core/quarantine_retention.py:135-162 | lists once each exactly the rows past their window |
| QuarantineStore.QuarantineStore.ReconcileOnce | backend/app/core/quarantine_retention.py:135-168 | the loop equals the deletions one after another, each seeing the ones before |
| Capacity.CapacityIsExact | session-agent/app/main.py:212-238 | `k` more sessions are within the capacity iff `k` more sandboxes fit into free memory after the reserve and into free CPU, and the ceiling allows them |
| Capacity.CapacityInFields | session-agent/app/main.py:212-238 | the same in the fields of a reading: `k` more fit iff `k * ramLimit + reservedRam <= availableRam` and `k * cpuLimit * 100 <= cpuCount * (100 - cpuPercent)`; also for each resource alone |
| Capacity.BreakdownExactly | session-agent/app/main.py:226-238 | the least of memory, CPU and ceiling is the capacity and names the bound, memory on a tie |
| Capacity.BoundIsBinding | session-agent/app/main.py:226-238 | relieving a resource other than the named bound does not change the capacity |
| Capacity.NeverAboveRaw | session-agent/app/main.py:60-71 | the reported capacity never exceeds the latest raw one |
| Capacity.StreakIsTail | session-agent/app/main.py:60-71 | the streak counts the latest polls, all above the reported value, which is the raw value before them |
| Capacity.RisesExactly | session-agent/app/main.py:60-71 | a drop shows at once; a rise shows iff it completes a streak |
| Capacity.RisesOnlyAfterStreak | session-agent/app/main.py:60-71 | on a rise, the latest `recovery_polls` raw values all exceeded the old report |
| Capacity.SustainedRecoveryRises | session-agent/app/main.py:60-71 | conversely that many successive values above the report do raise it |
| Capacity.RiseNeedsOnePollAtTheNewValue | session-agent/app/main.py:44-50 | the earlier polls of a streak need not reach the new value |
| Capacity.UnsustainedRise | session-agent/app/main.py:44-50 | for every setting above one, a history whose report jumps to 5 on the first poll at 5 |
| Capacity.RisesAreSustainedIff | session-agent/app/main.py:44-50 | over every history each rise rests on that many raw values at least as high as the new report, iff the setting is at most one |
| Capacity.CapacityHysteresis.Smooth | session-agent/app/main.py:60-71 | the two fields are always the function of the raw history |
| Scheduling.ReachedThrough | backend/app/services/nodes.py:166-193 | over any run an enrolled node is reached at its own endpoint iff the last accepted enrolment or approval is an approval with an endpoint, with its token unless revoked, then with an empty one; otherwise through the default agent |
| Scheduling.ApprovedWithoutEndpoint | backend/app/services/nodes.py:121-135 | an approved node without an endpoint, reached through the default agent |
| Scheduling.EnrolledAgain | backend/app/services/nodes.py:84-118 | a node that had its own endpoint, revoked and enrolled again, reached through the default agent |
| Scheduling.TrustGate | backend/app/services/nodes.py:84-154 | a revoked node is approved again only after a new enrolment and an approval following it |
| Scheduling.HoldSurvivesHeartbeats | backend/app/services/sessions.py:75-83 | draining and maintenance survive any number of heartbeats and approvals |
| Scheduling.HoldsExactly | backend/app/services/nodes.py:18-81 | for each status what draining, maintenance and their ends leave, and when they are refused |
| Scheduling.TrustExactly | backend/app/services/nodes.py:84-154 | for each enrolment what enrolling, approving and revoking leave, field by field, and when they are refused |
| Scheduling.NodeRegistry.DrainNode | backend/app/services/nodes.py:18-34 | the drain step, refused in maintenance |
| Scheduling.NodeRegistry.UndrainNode | backend/app/services/nodes.py:37-50 | the undrain step, refused unless draining |
| Scheduling.NodeRegistry.MaintenanceNode | backend/app/services/nodes.py:53-68 | the maintenance step |
| Scheduling.NodeRegistry.UnmaintenanceNode | backend/app/services/nodes.py:71-81 | the end of maintenance, refused unless in it |
| Scheduling.NodeRegistry.EnrollNode | backend/app/services/nodes.py:84-118 | a new host or a revoked one becomes pending; any other is refused unchanged |
| Scheduling.NodeRegistry.ApproveNode | backend/app/services/nodes.py:121-135 | the approval step, refused for a revoked node |
| Scheduling.NodeRegistry.RevokeNode | backend/app/services/nodes.py:138-154 | the revocation step |
| Scheduling.NodeRegistry.SelectNode | backend/app/services/sessions.py:138-188 | the pick is the approved, answering, online node with a free slot that has most free slots, lowest hostname on a tie; none iff there is no such node; without approved rows, the default agent's |
| Scheduling.RefreshedExactly | backend/app/services/sessions.py:75-94 | a refresh takes over status, capacity and load of approved nodes that answer, the status only if no administrator holds the node |
| Scheduling.BeforeExactly | backend/app/services/sessions.py:172-188 | the tie-break is the lexicographic order of hostnames |
| Scheduling.PickedExactly | backend/app/services/sessions.py:138-188 | in stored and reported fields: the pick is the approved, unheld node that reports ONLINE with a free slot and has most of them, then the lowest hostname; none iff there is no such node |
| Scheduling.HeldIsNotPicked | backend/app/services/sessions.py:75-94 | a drained node is not picked, whatever heartbeats and approvals follow |
| Scheduling.BootstrappedExactly | backend/app/services/sessions.py:149-170 | the default agent's row: new and approved if missing, else refreshed with its enrolment kept |
| Scheduling.PickIsTrusted | backend/app/services/sessions.py:164-170 | with an approved row a pick is approved; without one the fallback's is, iff its host had no row |
| Scheduling.FallbackPicksRevoked | backend/app/services/sessions.py:164-170 | a revoked node the fallback makes usable |
| Scheduling.PickHasRoom | backend/app/services/sessions.py:138-188 | whatever its readings before, a picked node had memory after the reserve and CPU for every slot it was ranked by |

## Left out

- The RFB handshake and pixel encodings other than Raw and CopyRect: the filter does not parse them.
- OpenDisplay: does not model other steps between its checks, the dialling and its commit; it is one step, because the source writes ACTIVE after awaiting the dial without checking again. DeathIsFinal, IsolationEndedBy, ClaimedEndsSettled, ReaperSparesTouched, AttendedIffLastTouchOpens and what follows from them hold of openings that are not overtaken in that gap. Isolation cutting an open relay is the later close step of that connection.
- RecoverStuckOnce: takes the last change of each row as given, as the object mapper maintains it (`LastChange` says what it is after a run); its claim's bump of that time is not part of the state.
- CreateDraftVersion: the empty draft it leaves on a refused rule is the state of the service's transaction; the HTTP route rolls that back (backend/app/api/policies.py:235-236), so it never becomes visible. Every store theorem holds with and without it.
- CreateSession: does not model other steps during the agent calls; the node is the outcome of node selection, modelled in `Scheduling`; the cleanup call after a failure is part of the failed outcome.
- Row locking, transaction isolation and crashes between a file operation and its commit: each step is atomic.
- Upload handling, event and incident texts, and the repeated-violation incident.
- Policy names, version numbers and the rejection of unknown rule or policy types: no decision depends on them.
- Incidents other than whether some open one refers to a file.
- Unicode case folding and whitespace beyond ASCII in the matchers, and the URL parser itself (`urlHost`).
- Floating-point rounding in the capacity arithmetic: it is over the reals. `Capacity` assumes positive per-sandbox limits, without which the source divides by zero.
- PickHasRoom: speaks of the reading the report was computed from; load that appears after it is not modelled.
- StoreAgreesWithRows: assumes no content hash equals the hash of a size-rejection label; without it `BytesOutliveRows` still holds.
- RowFollowsLastTab: speaks of runs of tabs on a disconnected session; `RowShowsLastOpener` covers all runs.
- ReapableIffLastTabClosed: likewise; `ReapableIffLastTouchNotOpening` covers all runs.
- WebSocket, HTTP, container runtime, scanner, directory and token handling: each call is a success or a failure.
- The frontends, migrations, setup, login and dashboard: glue around the modelled core.
