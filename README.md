# LAN classroom voting server: session state and vote integrity in Dafny

This project models the core of the LANVotePage server (`server.js`). The server
keeps one in-memory session (`gameState`). Host sockets change it: they create a
session, select an advertised address and update the voting status. Participant
devices submit scored ballots. A registry maps each device to its live socket.
The `/export` route aggregates the votes per subject and category.

Modules:

- `Base` (base.dfy): `Option`, JavaScript `startsWith`, and the `Event` values a handler hands to the transport.
- `Identity` (identity.dfy): strips the `::ffff:` prefix, applies the loopback shortcut, extracts the first MAC match from the neighbour-table output and uppercases it, and falls back to the IP when no MAC is found (`clientMac || clientIp`).
- `Registry` (registry.dfy): `activeConnections` as a class with a `map` field, the pure map updates that specify it, and lemmas about reconnects and late disconnects.
- `Intake` (intake.dfy): the value types (`Category`, `Vote`, `Item`, `Submission`). Also `Decide`, the pure decision a submission gets: ignored, rejected, or accepted with its records. It also holds the labelling of items and the vote-count invariant. That invariant says the records for one (main subject, client id) pair are either absent or exactly the records of one accepted submission.
- `Session` (session.dfy): `GameState`, a class with the fields of `gameState`. Its methods are the socket handlers and change the fields in place. `SubmitVote` keeps a ghost list of accepted submissions (`batches`), and `Valid()` ties `votes` to it. `Server` wires the connection handler together: resolve identity, register and evict, refresh addresses, push the state.
- `Export` (export.dfy): the partition by main subject and then by display subject, in first-seen order. It also holds the per-category totals with missing scores as 0, the display-name rule, and the row layout (header, group row, sub-rows, spacer). It proves that the partition loses and duplicates nothing, counting repeated records one by one.

Behaviour a reader might not expect, which the model follows as the code has it:

- A submission while voting is closed returns silently, with no error event (server.js:243).
- `host-create-session` keeps the current subject, the gate, the participants, the mode and the selected address.
- An accepted submission with no items is still broadcast, and it does not block a later submission from the same device.
- The duplicate check is keyed on the client id, not the socket. After reconnecting on a new socket, a device is still rejected.
- The export's per-category accumulator is keyed by category id, and `host-create-session` does not make ids unique. When two categories share an id, every vote adds its score for that id once per such category, so each of their columns shows the sum times the number of categories with that id (`Export.CategoryTotals`).

## Model

| member | source | states |
|---|---|---|
| Identity.StripMappedPrefix | server.js:183-186 | an address starting with `::ffff:` is that prefix followed by the result; any other address is returned unchanged |
| Identity.Upper | server.js:49 | the uppercased text has the same length, contains no lower-case letter, and maps each character by ASCII upper-casing |
| Identity.FirstMacFrom | server.js:47-48 | the result is the leftmost position at or after `k` where the MAC pattern matches; None means there is no match at or after `k` |
| Identity.ExtractMac | server.js:47-49 | None exactly when the pattern matches nowhere; otherwise the uppercased text of the leftmost match, which is a well-formed upper-case MAC |
| Identity.ExtractMacIdempotent | server.js:47-49 | extracting again from an extracted MAC gives the same MAC |
| Identity.IsLoopback | server.js:28 | exactly `127.0.0.1`, `::1` and `localhost` take the loopback shortcut (used by `Identity.MacAddress` and `Identity.LoopbackIgnoresProbe`) |
| Identity.MacAddress | server.js:26-52 | a loopback address gives `LOCALHOST` whatever the probe says; a failed neighbour-table query gives null; otherwise the result is the extraction from the query output |
| Identity.ClientIdOf | server.js:190 | a non-empty MAC is the client id; a missing or empty one falls back to the IP |
| Identity.Resolve | server.js:182-190 | the client IP is the stripped handshake address; a loopback IP gives `LOCALHOST`; otherwise a MAC found in the query output, uppercased, is the client id, and with no MAC the id is the IP |
| Identity.LoopbackIgnoresProbe | server.js:28-29 | for a (possibly IPv4-mapped) loopback address, the resolution does not depend on the probe output and is `LOCALHOST` |
| Identity.MappedLoopbackIsLocalhost | server.js:28-29 | `127.0.0.1`, `::1`, `localhost` and `::ffff:127.0.0.1` all resolve to `LOCALHOST` |
| Registry.Registered | server.js:205 | afterwards the device maps to the new socket, and every other device keeps its entry |
| Registry.Evicted | server.js:196-203 | exactly when the device maps to a different socket that the transport still knows is that socket evicted |
| Registry.Unregistered | server.js:211-215 | the device's entry is removed exactly when it points at this socket; other entries are untouched |
| Registry.SupersededDisconnectKeepsNewer | server.js:196-215 | a superseded socket's disconnect after a reconnect leaves the newer mapping intact |
| Registry.ReconnectEvictsPrevious | server.js:196-205 | a second registration with a different live socket evicts exactly the first socket and leaves only the newest mapping |
| Registry.DisconnectForgets | server.js:205-215 | registering and then disconnecting the same socket removes the device |
| Registry.ConnectionRegistry.Register | server.js:196-205 | the new map is the registration, and the emitted events are one `force-disconnect` to the evicted socket, if any |
| Registry.ConnectionRegistry.Unregister | server.js:211-215 | the new map is the guarded removal |
| Intake.ItemsOf | server.js:258 | an absent `items` field is the empty list; a present one is used as given |
| Intake.DisplaySubject | server.js:261-273 | every label starts with the current subject; a `group` item is labelled `<subject> (Group)` in `mixed` mode and `<subject>` in any other mode; a participant item is labelled `<subject> - <name>`; an item of any other type gets the plain subject |
| Intake.Team1Labels | server.js:264-273 | for the subject "Team1", a group item is "Team1 (Group)" in mixed mode and "Team1" in group mode, and a participant "Alice" is "Team1 - Alice" |
| Intake.AlreadyVoted | server.js:247-249 | some recorded vote has the current main subject and this client id (used by `Intake.Decide` and `Intake.DuplicateRejected`) |
| Intake.Decide | server.js:242-258 | the submission is ignored exactly when voting is closed, rejected exactly when voting is open and the device already voted for the current subject, and otherwise accepted with one record per item |
| Intake.Records | server.js:260-283 | one record per item, in item order, each with the current subject as main subject, the item's label and scores, and the submitter's socket, IP and client id |
| Intake.ClosedGate | server.js:243 | with voting closed, any payload leaves the votes unchanged and emits nothing |
| Intake.DuplicateRejected | server.js:247-254 | a device that already has a record for the current subject leaves the votes unchanged and gets one `error-message` on its own socket |
| Intake.AcceptedAppendsRecords | server.js:256-283 | an accepted submission keeps the old votes as a prefix and appends one record per item (`data.items` defaulting to empty), in order, keyed by the current subject and client id and labelled per item |
| Intake.SecondSubmissionRejected | server.js:245-254 | after a non-empty accepted submission, the same client id is rejected for the same subject, on any socket, in any mode, whatever the payload |
| Intake.EmptySubmissionAllowsRetry | server.js:258-285 | an accepted submission without items records nothing, so the device's next submission is accepted |
| Intake.OneSubmissionPerKey | server.js:247-283 | under the batch invariant, the records for any (main subject, client id) pair are either none or exactly one accepted submission's records |
| Intake.SubmissionKeepsBatches | server.js:242-286 | every submission outcome preserves the batch invariant, and the votes remain the concatenation of the accepted submissions |
| Session.Merged | server.js:232-237 | an absent field keeps the prior value; a present one replaces it |
| Session.GameState.constructor | server.js:75-86 | the initial session: no id, the default name, no categories, empty subject and participants, mode `group`, voting closed, no votes, first address selected |
| Session.GameState.CreateSession | server.js:217-223 | name, categories and the new id are set and the votes are empty; subject, gate, participants, mode and address selection are unchanged; the state is broadcast |
| Session.GameState.SelectIp | server.js:225-230 | an index in `0 <= index < |availableIps|` is recorded and broadcast; any other index changes nothing and emits nothing |
| Session.GameState.UpdateStatus | server.js:232-240 | each of the four fields is merged from the update, nothing else changes, and the state is broadcast |
| Session.GameState.SubmitVote | server.js:242-286 | the new votes and the emitted events are those of `Decide` on the old state; the accepted submissions grow by this submission's records exactly when it is accepted with items; the vote-count invariant is preserved |
| Session.GameState.AcceptSubmission | server.js:256-283 | on the accepted path the votes grow by exactly the submission's records, these records become one more accepted submission, and the vote-count invariant is preserved |
| Session.GameState.PushRecords | server.js:260-283 | the loop appends exactly the records of the items to the votes |
| Session.GameState.RefreshAvailableIps | server.js:208 | the advertised address list is replaced |
| Session.Server.Connect | server.js:182-209 | the client IP and id are the resolution of the handshake address; the registry gets the new mapping; the addresses are refreshed; the events are the eviction, if any, followed by a state push to the new socket |
| Session.Server.Disconnect | server.js:211-215 | the registry entry is removed only if it still points at this socket |
| Export.Select | server.js:104-108 | a part holds exactly the votes whose key is the part's key |
| Export.SelectKeepsCopies | server.js:104-108 | a part holds each vote with its key as many times as the votes do, and no other vote |
| Export.PartitionKeepsVotes | server.js:104-108 | over distinct keys covering every vote, the parts together hold every vote exactly as many times as the votes do |
| Export.Keys | server.js:104-108 | the part keys are distinct, every vote's key is among them, and each key comes from some vote |
| Export.KeysFirstSeen | server.js:104-108 | keys appear in first-seen order: more votes only append keys |
| Export.PartitionTotal | server.js:117-170 | over distinct keys covering every vote, the parts' counts or category totals add up to those of all the votes |
| Export.Score | server.js:123-124 | a missing score counts as 0 (used by `Export.CategoryTotals`) |
| Export.CategoryTotals | server.js:119-129 | one total per category, in category order; a column's total is the sum of its id's scores over the votes, times the number of categories that carry that id |
| Export.TotalScaled | server.js:122-126 | adding a score `t` times per vote multiplies its total by `t` |
| Export.DistinctIdsCountOnce | server.js:122-126 | with distinct category ids each id is carried once, so each column is the plain sum of its scores |
| Export.DisplayName | server.js:148-154 | a subject starting with `<main> - ` shows the rest; otherwise the main subject itself or `<main> (Group)` shows "Group Evaluation" and anything else shows verbatim |
| Export.SubRows | server.js:142-169 | one sub-row per sub-subject, in order, with its display name, the size of its part and its part's category totals |
| Export.Block | server.js:117-171 | a main subject's rows are its group row over its part, one sub-row per distinct display subject, and a spacer |
| Export.BlocksGroups | server.js:117-174 | the blocks carry one group row per given main subject, in that order, and their counts add up to the sizes of those parts |
| Export.ExportRows | server.js:113-174 | the first row is the header with the fixed columns followed by one name per category |
| Export.BlockSumsAgree | server.js:117-170 | a main subject's sub-row counts add up to its group row's count, and each category's sub-row totals add up to the group row's total |
| Export.ExportGroups | server.js:113-174 | the first row is the header with the category names; there is one group row per distinct main subject, in first-seen order; the group counts add up to the number of votes |
| Export.GroupRowMeaning | server.js:117-132 | a group row counts exactly the votes with its main subject, each copy of a repeated vote included; each total is that category's score sum, with missing scores as 0, times the number of categories with its id; the count is at least 1 |
| Export.SubRowsPositive | server.js:142-169 | every sub-row of a part key that some vote carries counts at least one vote |
| Export.ExportCountsPositive | server.js:119-169 | every count in the export is at least 1, so no average divides by zero |
| Export.LabelRoundTrip | server.js:148-154 | the export's display name undoes the intake's label: a participant item shows the participant's name, and any other item shows "Group Evaluation", in every mode |

## Left out

- Express, static files, the `/` route, the response headers and the dated file name (server.js:17-23, 94-96, 176-178): HTTP plumbing.
- The socket.io transport: broadcasts, direct emits and evictions are `Event` values. Closing the old socket is not modelled, and neither is the suspension of the async connection handler.
- Running `ping` and `arp` and the platform branching (server.js:32-45): this is external process I/O. The output of `arp` is a parameter, and None stands for a failed query.
- `getNetworkInterfaces` and `os.networkInterfaces` (server.js:56-72): platform I/O. The address list is a parameter.
- All `console.log` output, and `idType` (server.js:191), which only feeds a log line.
- `Math.random()` for the session id (server.js:220): the new id is a parameter. Its distinctness from the previous id is not modelled.
- `parseFloat` and `toFixed(2)` (server.js:124-129, 161-166): scores are integers with missing as 0, and each average is kept as its (total, count) pair. A non-numeric score string is not modelled. In the source `parseFloat` gives NaN for it, and `(total || 0)` then restarts the running total at the next vote, so the source's total is the sum of the scores after the last non-numeric one (NaN when that one is the last vote).
- The CSV text (server.js:115, 132, 169, 173, 178) is not modelled. This covers the comma join, the quotes around text fields (which do not escape embedded quotes) and the fixed `,,,,` spacer.
- JavaScript object-key enumeration (server.js:104-108, 117, 136-142) is modelled as first-seen order. Engines actually list integer-like keys first, in ascending order. A key named like an inherited property (`constructor`, `__proto__`) also behaves differently in the source.
- `server.listen` (server.js:290-301).
- Dynamically typed payloads are not modelled. An explicit `null` in `host-update-status` is stored, but the model's `Option` only tells a present field from an absent one. A fractional index passes the bounds check of `host-select-ip`. A missing `item.name` is rendered as `undefined`. An item without `scores` makes the export throw.
- Identity.Upper: ASCII upper-casing only, where JavaScript is Unicode. A MAC match contains only hex digits, `:` and `-`, and for those the two agree.
