# Chat message store and client sync, in Dafny

This project models the two stateful halves of a small multi-user chat and
proves that they fit together:

- **The message store.** The Laravel API controller (`index`, `store`, `update`,
  `destroy`) works on a `messages` table. Here the table is a map from key to
  `Message(id, sender, text, createdAt, updatedAt)`, with an auto-increment
  counter and a logical clock. Each action is a pure function from table and
  request to the new table and a response: `Ok(status, body)`, `ValidationFail`
  or `NotFound`.
- **The client.** The React component keeps five pieces of state: the message
  list, the composer input, the current user, and the single edit slot
  (`editId`, `editInput`). It is modelled as a record. Every handler
  (`fetchMessages`, `sendMessage`, `startEdit`, `cancelEdit`, `saveEdit`,
  `deleteMessage`, both key handlers, the `onChange` setters) is a pure
  function. It returns the new state, the request it sent (`POST /messages`,
  `PUT /messages/{id}` or `DELETE /messages/{id}`), and whether a refetch
  follows.
- **The link.** `Sync.Interact` carries one gesture through the route table,
  the controller, the handler's continuation after `await` and the follow-up
  `fetchMessages`. The central result is `Sync.WriteThenFetchSyncs`: after an
  answered write and a successful refetch, the client's list *is* the server's
  listing, in the server's order. `Sync.SessionStaysInSync` extends this to
  whole sessions by induction.

Modules follow the program's structure:

- `Whitespace`: the two `trim`s.
- `Messages`: entity, table, request fields, responses.
- `Listing`: the order of `orderBy('created_at')`.
- `MessageController`: the four controller actions.
- `StoreLaws`: facts that relate several controller calls.
- `Routes`: the route table.
- `App`: the client component.
- `AppLaws`: facts about the client handlers.
- `Sync`: one client and the server together.

Modelling choices worth knowing:

- The two blank tests are modelled separately because they differ. JavaScript's
  `trim` strips the ECMAScript whitespace and line terminators. PHP's `trim`
  strips space, tab, LF, CR, NUL and VT, and Laravel's `required` rule uses it.
  So a lone NUL is sent by the client but rejected by the server, and a lone
  form feed is the reverse (`Whitespace.BlankTestsDisagree`).
- A request field is `Missing` (absent or `null`), `Str(s)` or `NonString`.
  `required|string` accepts only a string that is non-empty after PHP's `trim`.
- `$message->save()` follows Eloquent's dirty check. An update whose text equals
  the stored text writes nothing and keeps `updated_at`. A real change stamps
  the new clock reading.
- Wall-clock time is a logical clock. Each write is told how far the clock has
  moved (`elapsed: nat`, possibly 0). So timestamps never decrease, but two rows
  may share one, as rows written within the same second do.
- `PUT` with an empty edit slot goes to `/messages/null`. This is modelled as a
  route key `None`, which `findOrFail` never finds.
- A network failure makes the awaited promise reject, so nothing after the
  `await` runs. Any HTTP answer, whatever its status, lets the handler continue.

Behaviours of the code worth knowing:

- The listing gives no tie-break among equal `created_at`, so the contract
  promises only non-decreasing `created_at`. `Listing.Ordered` happens to use
  key order among ties as one admissible choice.
- `update` validates `text` before it looks up the key. So a bad text on a
  missing key is a validation failure, not not-found.
- The client keeps the composed input only on a network failure. A send the
  server's validation rejects still clears the input and refetches, provided
  the rejection reaches the client as an HTTP answer
  (`Sync.RejectedSendStillClearsInput`).
- Editing to the same text does not refresh `updated_at`. A changed text gets a
  strictly later `updated_at` only if the clock moved (`StoreLaws.EditThenList`).

## Model

| member | source | states |
|---|---|---|
| Whitespace.TrimEmptyIffAllWhitespace | src/App.js:33 | `trim(s) === ""` holds exactly when every character of `s` is one that `trim` strips, in both directions |
| Whitespace.BlankIffTrimEmpty | src/App.js:33 | the client's blank test holds exactly when JavaScript's `trim` leaves nothing, and the server's exactly when PHP's `trim` leaves nothing |
| Whitespace.BlankTestsDisagree | Chat/laravel-chat-backend/app/Http/Controllers/Api/MessageController.php:21-24 | the server's `required` blank test (PHP `trim`) and the client's (JS `trim`) disagree both ways: NUL is blank only to PHP, form feed only to JavaScript |
| Listing.Ordered | Chat/laravel-chat-backend/app/Http/Controllers/Api/MessageController.php:14 | the listing has one entry per row, holds only stored rows, lists every row, and has non-decreasing `created_at`; when rows are keyed by their id, each row appears exactly once |
| MessageController.Index | Chat/laravel-chat-backend/app/Http/Controllers/Api/MessageController.php:12-16 | listing never fails, answers 200 with every row in `created_at` order, and leaves the table unchanged |
| MessageController.Create | Chat/laravel-chat-backend/app/Http/Controllers/Api/MessageController.php:19-32 | validation fails exactly when `sender` or `text` is missing, not a string or blank, and the table is then unchanged; on success: status 201, the given sender and text, `created_at == updated_at` at the current reading, the counter's key (fresh on a well-formed table), exactly one row added, all other rows unchanged, table stays well-formed |
| MessageController.Update | Chat/laravel-chat-backend/app/Http/Controllers/Api/MessageController.php:35-46 | a bad `text` fails validation whatever the key, even an absent one; otherwise an absent key is not-found; both leave the table unchanged; on success only the target's text changes, `id`, `sender` and `created_at` are kept, `updated_at` is refreshed to the current reading on a real change (never below the old value), other rows untouched |
| MessageController.Destroy | Chat/laravel-chat-backend/app/Http/Controllers/Api/MessageController.php:49-55 | an absent key is not-found with the table unchanged; otherwise exactly that row is removed, the others and the counter are untouched, and the answer is 204 with no body |
| StoreLaws.EmptyStoreValid | Chat/laravel-chat-backend/app/Http/Controllers/Api/MessageController.php:12-16 | the empty table is well-formed and lists nothing |
| StoreLaws.ActionsPreserveValid | Chat/laravel-chat-backend/app/Http/Controllers/Api/MessageController.php:12-55 | every controller action keeps the table well-formed: rows under their own id, keys below the counter, `created_at <= updated_at <=` clock, non-blank sender and text |
| StoreLaws.ListingExactlyOnce | Chat/laravel-chat-backend/app/Http/Controllers/Api/MessageController.php:14 | on a well-formed table each listed entry is the current row under its id, no id repeats, and an id is listed exactly when it is stored |
| StoreLaws.DestroyIsFinal | Chat/laravel-chat-backend/app/Http/Controllers/Api/MessageController.php:35-55 | after a successful delete, a second delete and any valid update of that key are not-found, while an invalid update is still a validation failure |
| StoreLaws.DeletedKeyNeverReused | Chat/laravel-chat-backend/app/Http/Controllers/Api/MessageController.php:26-52 | after a successful delete, no later history of requests (reads, creates, updates and deletes in any order) brings a row back under that key, and the counter stays above it |
| StoreLaws.UpdateTwiceSameText | Chat/laravel-chat-backend/app/Http/Controllers/Api/MessageController.php:41-45 | repeating a successful update with the same text answers the same row and changes nothing |
| StoreLaws.SendThenList | Chat/laravel-chat-backend/app/Http/Controllers/Api/MessageController.php:12-31 | creating a valid message in an empty table lists exactly that message, with equal timestamps |
| StoreLaws.AliceSaysHi | Chat/laravel-chat-backend/app/Http/Controllers/Api/MessageController.php:12-31 | Alice's "hi" sent to an empty table passes `required|string`, and the listing then holds exactly that message, under the counter's key, with equal timestamps |
| StoreLaws.EditThenList | Chat/laravel-chat-backend/app/Http/Controllers/Api/MessageController.php:35-46 | after changing a message's text, with the clock moved, the listing shows that id with the new text and `updated_at > created_at` |
| StoreLaws.DeleteThenList | Chat/laravel-chat-backend/app/Http/Controllers/Api/MessageController.php:49-55 | after a delete, no listed entry carries the deleted id, and a second delete is not-found |
| Routes.Dispatch | Chat/laravel-chat-backend/routes/api.php:11-15 | a GET always succeeds with 200 and leaves the table alone; only POST and PUT can fail validation, only PUT and DELETE can be not-found; success answers 201 for POST, 204 for DELETE, 200 otherwise; only a POST adds a key or moves the counter, and only a DELETE removes a key |
| Routes.FailuresLeaveStoreUnchanged | Chat/laravel-chat-backend/app/Http/Controllers/Api/MessageController.php:12-55 | a call not answered with success, and any read, leaves the table exactly as it was; every call keeps the table well-formed |
| App.FetchMessages | src/App.js:18-22 | a fetched snapshot replaces the local list wholesale, with no merge and no re-sort; a failed read changes nothing; no other state changes |
| App.SendMessage | src/App.js:32-43 | blank input sends nothing and changes nothing; otherwise it posts the untrimmed input as the current user; any HTTP answer clears the input and requests a refetch; a network failure keeps the state |
| App.StartEdit | src/App.js:45-48 | the slot becomes (message id, message text); nothing is sent; nothing else changes |
| App.CancelEdit | src/App.js:50-53 | the slot becomes (null, ""); nothing is sent; nothing else changes |
| App.SaveEdit | src/App.js:55-67 | a blank draft sends nothing and keeps slot and draft; otherwise it puts the draft to the slot's key; any HTTP answer, whatever its status, empties the slot and requests a refetch; a network failure keeps slot and draft |
| App.DeleteMessage | src/App.js:69-74 | without confirmation nothing happens; with it a DELETE of that id is sent and an answer requests a refetch; the local state is never touched |
| App.KeyDownInput | src/App.js:76-78 | Enter posts the untrimmed input as the current user exactly when it is not blank, and an answered post clears the input and refetches; every other key, and Enter on a blank input, sends nothing and changes nothing |
| App.KeyDownEdit | src/App.js:80-83 | Enter puts the draft to the slot's key exactly when the draft is not blank, and an answered put empties the slot and refetches; Escape empties the slot and sends nothing; other keys send nothing and change nothing |
| App.Step | src/App.js:105-211 | each gesture bound in the markup reaches its handler; the three `onChange` setters (user selector, edit box, composer) change only their own field, send nothing and do not refetch; starting or cancelling an edit sends nothing; only send, save, delete and the two key handlers can send a request; a refetch follows only an answered request; no gesture changes the local list |
| AppLaws.SendBlankIffNoRequest | src/App.js:32-39 | sending is a no-op exactly when every input character is whitespace; otherwise the untrimmed input is posted |
| AppLaws.SaveBlankIffNoRequest | src/App.js:55-62 | saving is a no-op exactly when every draft character is whitespace; otherwise the draft is put to the slot's key |
| AppLaws.RequestIgnoresOutcome | src/App.js:32-74 | the request a gesture sends does not depend on how it ends |
| AppLaws.StatusNotInspected | src/App.js:32-74 | any two HTTP statuses have the same effect on every gesture |
| AppLaws.NoRequestNoOutcome | src/App.js:32-83 | a gesture that sends nothing never refetches and its effect does not depend on any outcome |
| AppLaws.AnsweredWritesRefetch | src/App.js:41-42 | every answered write requests a refetch; a network failure leaves the state as it was, with no refetch |
| AppLaws.StepKeepsMessages | src/App.js:32-83 | no handler other than `fetchMessages` changes the local list |
| AppLaws.StartEditOverwrites | src/App.js:45-48 | starting a second edit overwrites the slot, discarding the first draft |
| AppLaws.CancelUndoesStart | src/App.js:45-53 | cancelling undoes a started edit completely, and cancelling is idempotent |
| AppLaws.AtMostOneEditor | src/App.js:138 | with distinct rendered ids, at most one message renders as an editor |
| AppLaws.ControlsOnlyOnOwnMessages | src/App.js:166-181 | edit and delete are offered only on the current user's messages that are not being edited |
| AppLaws.SaveTargetsOpenSlot | src/App.js:138-161 | a save reachable from the rendered editor always puts to a real id |
| AppLaws.SlotConsistentPreserved | src/App.js:45-67 | every available gesture, and every fetch, keeps the draft empty while no edit is open |
| Sync.WriteThenFetchSyncs | src/App.js:32-74 | after an answered write and a successful refetch, the client's list equals the server's listing |
| Sync.UnsentLeavesBothAlone | src/App.js:32-74 | a gesture that sends nothing, or whose write is lost, changes neither the table nor the client's list |
| Sync.InteractKeepsSync | src/App.js:18-74 | a client that shows the server's listing still does after any gesture whose refetch succeeds |
| Sync.InteractKeepsValid | Chat/laravel-chat-backend/app/Http/Controllers/Api/MessageController.php:19-55 | every gesture, carried through to the server, keeps the table well-formed |
| Sync.SessionStaysInSync | src/App.js:18-74 | throughout any session of one client whose refetches succeed, the client shows the server's listing and the table stays well-formed |
| Sync.StartupInSync | src/App.js:24-26 | the mount-time fetch puts the client in step with the server |
| Sync.SyncedClientHasOneEditor | src/App.js:138 | a client in step with a well-formed table renders at most one editor |
| Sync.SwitchingEditsDiscardsDraft | src/App.js:45-48 | starting edits on two messages in turn sends nothing, leaves the table untouched and leaves only the second message in the slot |
| Sync.RejectedSendStillClearsInput | src/App.js:33-42 | an input of one NUL is sent and fails the server's validation, leaving the table unchanged, yet the answered client clears the input |

## Left out

- Rendering, styling, the scroll-into-view effect and the avatar/profile
  lookup (`src/App.js:5-8`, `src/App.js:117`) are display only. The render
  conditions that gate the editor and the owner's controls are modelled.
- Text-to-speech (`speakMessage`) is a fire-and-forget browser call with no
  effect on state.
- `window.confirm` is the boolean `confirmed` input of `Remove`.
- HTTP, JSON and `fetch` are modelled as abstract outcomes:
  - `Responded(status)` or `NetworkFailure` for a write;
  - `Fetched(snapshot)` or `FetchFailed` for a read.
  A response lost after the server applied the write is not modelled.
  Neither is the JSON rendering of timestamps.
- Laravel internals are abstract rules: the validator, Eloquent, persistence
  and the exception-to-status rendering. Global request middleware
  (string trimming, empty-to-null) is configuration outside the controller and
  is not modelled, so text is stored exactly as received. The `Message` model
  class and its mass-assignment list are not part of this model; `sender` and
  `text` are assumed fillable.
- Real wall-clock time is not modelled. A clock that runs backwards would break
  `updated_at >= created_at` and is excluded by the logical clock.
- The `/user` route behind session authentication is not part of the message
  API.
- The status of a failed validation or lookup is not pinned down. The client
  sends no `Accept: application/json` header (`src/App.js:35-39`, `:58-62`),
  so the framework may answer a failed validation with a redirect rather than
  422. Whether that redirect reaches the client as an HTTP answer or as a
  rejected `fetch` depends on deployment (CORS), which the source does not
  show. The model assumes an HTTP answer; the client ignores its status
  (`AppLaws.StatusNotInspected`).
- Concurrency is not modelled:
  - several clients and their last-write-wins races;
  - gestures that overlap while a request is in flight. For example, typing
    during an awaited send is later cleared by `setInput("")`.
  Each gesture is handled to completion before the next.
- MessageController.Create: freshness of the new key and growth by exactly one
  row are stated only for a well-formed table. An ill-formed map could already
  hold the counter's key. That state is unreachable from the empty table
  (`StoreLaws.ActionsPreserveValid`).
- MessageController.Update: `updated_at` never decreasing is stated only for a
  well-formed table, for the same reason.
