# Delivery hub of a Go chat server, modelled in Dafny

The chat server keeps every live websocket connection in one registry,
`Hub.Clients`, a map from user id to client. One hub loop owns that map. It
takes one event at a time: a client registers, a client unregisters, or an
inbound message arrives. For a message, the loop saves it, records one
delivery-status row per conversation participant ("delivered" if the
participant's stored presence is "online", "sent" otherwise), stamps the
frame with the new id and the recipient list, and writes it to every
recipient still registered. A recipient whose write fails is deleted from
the registry. The login and logout handlers send a `status_update` frame to
every other registered client. Logout also unregisters clients whose write
fails, and then the user who logs out. Around these sit small input checks:
registration and login credentials, the logout user id, and conversation
creation (at least two participants, and deduplication of one-to-one
conversations by a canonically ordered pair).

The model has five modules:

- `ChatTypes` (types.dfy) holds the clients, frames, participant rows, status rows and save outcomes.
- `Registry` (registry.dfy) models the registry as a value: the Register and Unregister updates, the effect of one fan-out, and lemmas about them.
- `Persistence` (persistence.dfy) models `saveMessage`, the status rule it shares with `sendMessageHandler`, and that handler.
- `Handlers` (handlers.dfy) models `strings.TrimSpace`, Go's byte-counting `len`, and the handler input checks.
- `Delivery` (hub.dfy) holds the `Hub` class. Its `clients` map field is updated in place by one method per event arm, by the hub loop, and by the presence fan-outs. It also holds lemmas about event sequences.

Database results, transport write failures, the clock and password checks
are inputs:

- the id returned by an insert, or None when the insert fails;
- the participant rows, or None when the query fails;
- the set of user ids whose write fails;
- the timestamp string;
- whether the stored password hash matched.

Ids are `int`. The code only compares and copies them, so 64-bit width
never matters.

## Model

| member | source | states |
|---|---|---|
| Registry.Registered | main.go:177-179 | After Register(c), c.id maps to c. Every other id keeps its entry. The registry grows by one only when c.id was absent: a previous entry is overwritten, not duplicated. Entries stay keyed by their client's id. |
| Registry.Unregistered | main.go:181-186 | After Unregister(c), c.id is absent and no other id is touched. When c.id is absent the map is unchanged. The delete is by id, whatever client that id holds. |
| Registry.FanOutStep | main.go:206-213 | One iteration of the recipient loop. The recipient's entry is deleted iff it is registered and its write fails. No other entry changes. |
| Registry.AfterFanOut | main.go:206-213 | The registry after the loop has walked the recipients in order. Every remaining entry is unchanged from the start, and every registered id whose write does not fail is still there. |
| Registry.Attempted | main.go:206-208 | The recipients written to, in order: those still registered when the loop reaches them. There are no more writes than recipients, and each write goes to a recipient that was registered when the message arrived. |
| Registry.AfterFanOutClosedForm | main.go:206-213 | After the recipient loop, exactly the recipients whose write failed are gone. Every other entry, including failing ids that are not recipients, is unchanged. |
| Registry.AttemptedMembership | main.go:206-208 | An id is written to during fan-out iff it was registered when the message arrived and is among the recipients. |
| Registry.AttemptedWithoutDuplicates | main.go:206-208 | With distinct recipients, the writes go exactly to the registered recipients, in recipient order. |
| Registry.FailingAttemptedAtMostOnce | main.go:206-212 | A recipient whose write fails is written to at most once, even if listed several times, because its first failure deletes it. |
| Persistence.RecordStatuses | main.go:253-266 | The participant loop returns the participant ids in row order. It emits exactly one status row per participant, sender included, carrying the message id and that participant's id. The status is Delivered iff the presence is "online". |
| Persistence.StatusFor | main.go:260-263 | The presence-to-status rule, also used at main.go:848-851: Delivered iff the stored presence is exactly "online", Sent for any other value. |
| Persistence.ParticipantIds | main.go:253-258 | The recipient list: the participant ids, one per row, in row order. |
| Persistence.SaveOutcomeOf | main.go:234-268 | `saveMessage` returns no recipients iff the insert or the participants query fails. Otherwise it returns the inserted id and the participant ids in row order. |
| Persistence.SaveMessage | main.go:223-268 | A failed insert or a failed participants query gives no recipients and no status rows (main.go:234-235, 248-249). Otherwise it returns the new id, the participant ids in row order, and one status row per participant under the online-to-delivered rule. |
| Persistence.SendMessageHandler | main.go:825-867 | As written. A failed insert gives a database error and no status rows. If the insert succeeds and the participants query fails, the handler panics after the insert, with no status rows (main.go:842-843). Otherwise the reply carries the new id and the request fields, with one status row per participant under the same rule (main.go:847-854). |
| Persistence.SendMessageHandlerChecked | main.go:842-854 | With the query error checked, the handler never panics. A failed insert or a failed participants query gives a database error and no status rows. Otherwise the reply and status rows are those of the handler as written. |
| Handlers.Utf8Length | main.go:382-389 | Go's `len` of a string counts UTF-8 bytes, between 1 and 4 per character. |
| Handlers.AsciiUtf8Length | main.go:382-389 | On ASCII text, the byte count equals the character count. |
| Handlers.TrimLeft | main.go:381 | Removes a prefix made only of white space. What is left is empty or starts with a non-space. |
| Handlers.TrimRight | main.go:381 | Removes a suffix made only of white space. What is left is empty or ends with a non-space. |
| Handlers.TrimSpace | main.go:381 | `strings.TrimSpace`: trims both ends. The result is no longer than the input and neither starts nor ends with white space. |
| Handlers.IsSpace | main.go:381 | Go's `unicode.IsSpace` for the characters TrimSpace tests: tab through carriage return, space, U+0085, U+00A0, U+1680, U+2000-U+200A, U+2028, U+2029, U+202F, U+205F and U+3000. |
| Handlers.TrimSpaceIsTrimmedSlice | main.go:381 | `strings.TrimSpace(s)` is a slice `s[lo..hi]` of its input, and everything cut off on either side is white space. |
| Handlers.CheckRegistration | main.go:381-389 | Registration is accepted iff the trimmed username is at least 3 bytes and the password at least 6 bytes. An accepted request carries the trimmed username. The username check comes first, so a short username reports the username message even when the password is short too. |
| Handlers.TwoCharacterUsernameAccepted | main.go:382-385 | As written, the two-character username "éé" (4 bytes) passes the "at least 3 characters" check. |
| Handlers.CheckRegistrationByChars | main.go:382-389 | The corrected check counts characters: accepted iff the trimmed username has at least 3 characters and the password at least 6. Same messages, same order. |
| Handlers.CheckRegistrationByCharsIsStricter | main.go:382-389 | The corrected check accepts nothing that the byte check rejects. |
| Handlers.CheckRegistrationAgreesOnAscii | main.go:382-389 | On ASCII username and password, the corrected check and the check as written give the same result. |
| Handlers.CheckLogin | main.go:433-437 | Login input is accepted iff the trimmed username and the untrimmed password are both non-empty. The accepted username is the trimmed one. |
| Handlers.AllSpaceTrimsToEmpty | main.go:433 | A string made only of white space trims to the empty string. |
| Handlers.BlankUsernameRefused | main.go:433-437 | A username made only of white space is refused at login. |
| Handlers.ResolveLogoutId | main.go:533-555 | A malformed JSON body is rejected; an empty body is not. A nonzero body id wins. Otherwise the value parsed from the query parameter is used. A resolved id is never 0, and 0 from both sources is the "user_id is required" error. |
| Handlers.PlanConversation | main.go:698-711 | Fewer than 2 participants is rejected. The dedup lookup happens iff the conversation is not a group and has exactly 2 participants. Its pair (u1, u2) satisfies u1 <= u2 and has the same members as the two participants. |
| Handlers.CanonicalPairSymmetric | main.go:704-711 | The participants (a, b) and (b, a) give the same lookup key. |
| Handlers.CreateConversation | main.go:691-770 | As written. Fewer than 2 participants is a bad request. An existing conversation is returned iff the pair lookup found an id > 0 and reading that conversation succeeded. A lookup error (main.go:724-727) or a failed insert (main.go:750-752) is a server error. In every other case a conversation is created with the inserted id (main.go:755-770). |
| Handlers.InsertConversation | main.go:748-755 | The conversation insert: Created with the inserted id if it succeeds, a server error otherwise. |
| Handlers.ReadFailureCreatesSecondConversation | main.go:729-748 | As written, a one-to-one pair whose conversation is found but cannot be read gets a second conversation created. |
| Handlers.CreateConversationNoDuplicate | main.go:729-748 | The corrected decision: a found pair with a failed read is a server error, so a pair that already has a conversation never gets a new one. It agrees with the code as written whenever the pair is not found. |
| Handlers.DirectConversationDeduplicated | main.go:704-744 | Creating the one-to-one conversation (a, b) and then (b, a) gives the same answer. Once the canonical pair has a conversation and reading it succeeds, that conversation is returned and no second one is created. |
| Delivery.Hub.constructor | main.go:124-129 | The hub starts with an empty registry. |
| Delivery.Hub.Register | main.go:177-179 | The Register arm sets `clients` to Registered(old clients, c) and keeps entries keyed by id. |
| Delivery.Hub.Unregister | main.go:181-186 | The Unregister arm sets `clients` to Unregistered(old clients, c). |
| Delivery.ApplyEvent | main.go:176-215 | The registry after one select arm. An entry changes only when the event registers that entry's client. A message adds and replaces no entry. |
| Delivery.ApplyEvents | main.go:174-217 | The registry after the hub loop has taken the events in order. Every entry is either one the registry started with, unchanged, or a client registered by one of the events. |
| Delivery.Hub.Broadcast | main.go:188-214 | If saving fails: no status rows, no frame, no writes, registry unchanged. Otherwise: one status row per recipient, carrying the message id, the recipient's id and the status StatusFor gives for its presence. The frame is the inbound message with the assigned id, the saved recipient list and the stamp. The writes are `Attempted(old clients, recipients, failing)`, and the registry loses exactly the failed recipients. |
| Delivery.Hub.Handle | main.go:176-215 | One select arm for one event changes the registry as ApplyEvent says. |
| Delivery.Hub.Run | main.go:174-217 | The hub loop leaves the registry as ApplyEvents of its events, taken in order. |
| Delivery.Hub.AnnounceStatus | main.go:481-489 | The presence loop over the registered clients, in any order, writes once to every registered id except the acting user, and never to the acting user. It reports exactly the registered clients, other than the actor, whose write failed. |
| Delivery.Hub.AnnounceLogin | main.go:473-489 | The login fan-out sends an "online" `status_update` for the user to every other registered client. A failed write is only logged, so the registry is not changed. |
| Delivery.Hub.Logout | main.go:565-593 | The logout fan-out sends an "offline" `status_update` to every other registered client. Then each client whose write failed is unregistered, then the acting user is unregistered if present. The registry ends as the old one minus the failing ids and the actor. |
| Delivery.Hub.HandleLogin | main.go:426-503 | Input check failure gives 400. After a passing check, an unknown user or a wrong password gives 401 (main.go:445-447, 454-456) and a query error gives 500 (main.go:448-449). In all these cases nothing is sent. Success gives 200 and the login fan-out for the found user's id. |
| Delivery.Hub.HandleLogout | main.go:528-596 | A bad body or a missing id gives 400, and a failed presence update gives 500, with nothing sent and the registry unchanged. Otherwise it returns 200 after the logout fan-out, which writes once to each other registered client, and the forced disconnect of the resolved id. |
| Delivery.ApplyEventsSnoc | main.go:174-176 | Events are applied one at a time, in order. |
| Delivery.ConnectThenDisconnect | main.go:177-186 | A client that registers and then unregisters leaves no entry for its id. |
| Delivery.ReconnectKeepsLatest | main.go:177-179 | Two registrations for the same id leave one entry, holding the later client. |
| Delivery.StaleDisconnectRemovesNewer | main.go:290-292 | A reconnection followed by the old connection's deferred unregister leaves no entry: the newer connection is removed too, because Unregister deletes by id (main.go:181-186). |
| Delivery.DroppedMessageIsNoOp | main.go:189-194 | A message whose save fails can be removed from any point of a sequence of events, with any events before and after it, without changing the final registry. |
| Delivery.OneOnlineOneOfflineScenario | main.go:243-268 | With participants 1 (online, registered) and 2 (offline, not registered), the recipients are [1, 2]. User 1 gets "delivered", user 2 gets "sent", and only user 1 is written to. |
| Delivery.ApplyEventsKeyedById | main.go:174-217 | Every sequence of hub events keeps each entry stored under its own client's id. |

## Left out

- Closing connections (`Conn.Close`) is not modelled, as it is part of the transport. Two consequences are not captured. Unregister closes the connection of the client it was passed, not the one stored for the id. Register leaves a superseded connection open.
- Websocket transport is not modelled: upgrade, the "connected" acknowledgment, the `wsHandler` read loop and JSON framing. Register and unregister events stand for a connection's start and end.
- Log output is not modelled.
- Goroutines, channels and `select` are not modelled; events are processed one at a time. The presence loops run in detached goroutines that read `hub.Clients` without synchronisation. They are modelled as running to completion before the handler's own unregister of the acting user. The final registry is the same in every order.
- Go map iteration order is random. The presence loop picks the remaining keys in an unspecified order.
- Delivery.Hub.Broadcast: the contract does not state that the status rows are recorded before the first write, because the model keeps no log of the order of effects.
- Delivery.Hub.Broadcast: each recipient's write outcome is fixed for one broadcast (the `failing` set). A recipient listed twice that succeeds once and fails later is not modelled.
- Time is an input: the `Africa/Nairobi` RFC3339 stamp is a string parameter. The `time.Parse` fallback in `saveMessage` only feeds the database insert and is left out.
- The database is reduced to query outcomes given as inputs. Several details follow from that:
  - `rows.Scan` errors and the unchecked `rows.Err()` in `saveMessage` are not modelled.
  - Status-row inserts are modelled as issued. Their errors are ignored by the code.
  - The participant inserts of conversation creation are not modelled.
- Registration after validation is not modelled: hashing, the insert, duplicate-username detection and reading back the user.
- Login's presence update, token issuing and response body are not modelled. Password comparison is one boolean input.
- `strconv.ParseInt` is abstract. The logout query value is given as the number ParseInt returned, and its error is ignored as in the code.
- bcrypt, JWT, CORS, routing, `getEnv`, `main`, and the list handlers (users, conversations, messages) are not modelled. They only move query rows.
- Commented-out code is not modelled.

## Findings

| source | as written | input that shows it | evidently intended | confidence | as-written member | corrected member |
|---|---|---|---|---|---|---|
| main.go:382-389 | `len(req.Username) < 3` and `len(req.Password) < 6` count UTF-8 bytes | username "éé" (2 characters, 4 bytes) with password "secret" is accepted | at least 3 (and 6) characters, as the error messages say | medium, not executed | Handlers.TwoCharacterUsernameAccepted | Handlers.CheckRegistrationByChars |
| main.go:729-748 | when the pair lookup finds a conversation but reading it fails, the handler falls through to the insert | one-to-one request (a, b) whose pair lookup finds conversation 7 and whose read of conversation 7 fails; the insert gives 9, so the pair now has two conversations | a pair that already has a conversation does not get a second one, as the comment at main.go:747 says | medium, not executed | Handlers.ReadFailureCreatesSecondConversation | Handlers.CreateConversationNoDuplicate |
| main.go:842-843 | `rows, _ := db.Query(...)` discards the error, then `rows.Next()` is called on the nil result | the message insert succeeds and the participants query fails: the handler panics after inserting the message, and no status row and no reply are written | check the query error, as `saveMessage` does at main.go:248-249 | medium, not executed | Persistence.SendMessageHandler | Persistence.SendMessageHandlerChecked |
