# Chat message core, modelled in Dafny

This project models the message core of a two-party chat application. The backend handlers send,
edit, soft-delete, reply to and mark messages as read. Edit, delete and mark-as-read load one
record, check that the actor is its sender (edit, delete) or its receiver (read), and change it.
Send and reply create a new record. After a change, one socket event goes to the other party if
they are online; for mark-as-read, only on the first read. Around that sit three smaller pieces:

- the one-off migration that writes default values into every stored message;
- the client chat store that keeps the open conversation's message list;
- the edit box of the message bubble component, which decides whether a draft becomes an edit request.

Files:

- `message_model.dfy` (module `MessageModel`): the message record with the nine fields the handlers
  use, and the invariant of the stored collection (`WellFormed`). The invariant says:
  - ids match keys;
  - `isEdited` holds exactly when `editHistory` is non-empty;
  - a deleted message has no image;
  - receipts come only from the receiver and are unique by user;
  - a reply points at an earlier stored message.
- `message_controller.dfy` (module `MessageController`): the handlers as methods of class `Controller`.
  The class owns the document store `store: map<MessageId, Message>`, the id counter `nextId` and
  the event log `log`. The record transitions are functions (`Edited`, `Tombstoned`, `Acknowledged`),
  and the lemmas about them sit beside them.
- `message_migration.dfy` (module `MessageMigration`): the bulk `$set`, written as a loop over the
  collection (`Migrate`) and proved equal to a map over it (`Migrated`).
- `chat_store.dfy` (module `ChatClient`): the client store as class `ChatStore`. Network responses
  are passed in as parameters.
- `message_content.dfy` (module `MessageContent`): JavaScript's `trim`, the `handleEdit` decision
  rule (`DecideEdit`), the rendered action gate (`Render`) and the edit-box state as class `MessageBox`.

Stand-ins for the environment:

- Socket delivery is an `online: set<UserId>` parameter. A push appends an `Event(recipient, payload)`
  to `log`, and `Payload.Name()` gives the socket event name.
- The image upload is the parameter `upload`. It holds the URL the media service returned, or `None`
  when the upload threw, which becomes the 500 response.
- `new Date()` is the parameter `at`.

On these points the model follows the code as written:

- Send and reply accept a message with neither text nor image.
- An edit of a deleted message is accepted. It records the tombstone text in the history and shows
  the new text again (`EditAfterDelete`).
- Any user may reply to any message. There is no role check, and the reply goes to the original's
  sender.
- The client store has no handlers for `messageEdited`, `messageDeleted` or `messageRead`. It has no
  merge by id either: a pushed `newMessage` from the subscribed peer is simply appended.
- The bubble component calls `editMessage` and `deleteMessage` on the client store, but the store
  does not define them. `HandleEdit` therefore takes the outcome of that call as a parameter:
  - `Completes`: the box closes.
  - `Fails`: the box stays open.

  With the store as written, the call always fails.
- `handleEdit` compares the trimmed draft with the untrimmed text. An unchanged text that ends in
  white space is therefore sent again as an edit (`PaddedDraftIsResent`, `PaddedTextIsResent`).

## Model

| member | source | states |
|---|---|---|
| `MessageController.Emit` | backend/src/controllers/message.controller.js:60-63 | a push yields at most one event, exactly when the recipient is online, addressed to that recipient with the given payload |
| `MessageController.Conversation` | backend/src/controllers/message.controller.js:23-28 | among ids below n, the result holds exactly the stored messages sent between the two users in either direction, each equal to its stored record, in strictly increasing id order |
| `MessageController.Controller.GetMessages` | backend/src/controllers/message.controller.js:19-36 | the returned list contains a message iff it is stored and its (sender, receiver) is (me, peer) or (peer, me); the model lists them in increasing id (creation) order |
| `MessageController.Controller.SendMessage` | backend/src/controllers/message.controller.js:38-71 | the call fails with 500 and changes nothing exactly when an image was given and its upload failed; otherwise it stores one new record under a fresh id with sender = actor, receiver = route id and the given text; the record has an image iff one was supplied (the uploaded URL), no reply link and the default flags; `newMessage` goes to the receiver if online; the store invariant is kept |
| `MessageController.Controller.EditMessage` | backend/src/controllers/message.controller.js:74-111 | a missing id gives 404 and a non-sender gives 403, both with nothing changed and no event; an accepted edit (also one with identical text, also on a deleted message) appends exactly one history entry holding the previous text, sets the new text and `isEdited`, and keeps sender, receiver, image, replyTo, readBy and isDeleted; only that record changes; `messageEdited` carries the updated record to the receiver if online |
| `MessageController.Controller.DeleteMessage` | backend/src/controllers/message.controller.js:113-144 | 404 for a missing id and 403 for a non-sender, both with nothing changed; for the sender the record becomes the tombstone (isDeleted, fixed text, no image) with all other fields kept, the confirmation body is returned and `messageDeleted` with the id goes to the receiver if online |
| `MessageController.Controller.ReplyToMessage` | backend/src/controllers/message.controller.js:146-184 | a missing original gives 404 and creates nothing; a failed upload gives 500 and creates nothing; otherwise one new record under a fresh id with sender = actor, receiver = the original's sender, replyTo = the original's id and the given text and image; the original is unchanged; `newMessage` goes to the original's sender if online |
| `MessageController.Controller.MarkMessageAsRead` | backend/src/controllers/message.controller.js:186-222 | 404 for a missing id and 403 for anyone but the receiver, with nothing changed; a reader who already has a receipt gets the record back with nothing changed and no event; otherwise exactly one receipt (reader, time) is appended, nothing else changes and `messageRead` with the id and the new readBy goes to the sender if online |
| `MessageController.AcknowledgeKeepsUnique` | backend/src/controllers/message.controller.js:201-205 | marking read keeps `readBy` unique by user, for any reader |
| `MessageController.AcknowledgeKeepsInvariant` | backend/src/controllers/message.controller.js:196-205 | a mark-as-read by the receiver keeps the record invariant (receipts from the receiver only, unique by user) |
| `MessageModel.StoredReceiptsAtMostOne` | backend/src/controllers/message.controller.js:196-205 | in a well-formed store every message carries at most one receipt, because only its receiver can mark it read and only once |
| `MessageController.EditSeriesHistory` | backend/src/controllers/message.controller.js:90-97 | after N accepted edits the history has grown by exactly N entries in commit order; entry k holds the text in effect just before edit k; earlier history is kept; the text is the last submitted one; participants, image, replyTo, readBy and isDeleted are unchanged |
| `MessageController.DeleteIdempotent` | backend/src/controllers/message.controller.js:128-130 | deleting an already deleted message yields the same record |
| `MessageController.ReadAgainChangesNothing` | backend/src/controllers/message.controller.js:202-205 | after a first mark-as-read the reader has a receipt; marking read again at any later time changes nothing, so the first read time is kept |
| `MessageController.EditAfterDelete` | backend/src/controllers/message.controller.js:80-97 | an edit of a tombstoned record keeps isDeleted and the cleared image, shows the new text and records the tombstone text as the last history entry |
| `MessageMigration.Migrated` | backend/scripts/messageMigration.js:15-26 | the migrated collection has the same keys; every record has isEdited false, empty history, no replyTo, empty readBy and isDeleted false, and keeps its id, sender, receiver, text and image |
| `MessageMigration.Migrate` | backend/scripts/messageMigration.js:15-26 | the document-by-document update produces exactly the migrated collection |
| `MessageMigration.MigrationIdempotent` | backend/scripts/messageMigration.js:15-26 | running the migration twice gives the same collection as running it once |
| `MessageMigration.MigrationKeepsTombstoneText` | backend/scripts/messageMigration.js:18-24 | a deleted message loses its deleted flag but keeps the tombstone text |
| `MessageMigration.MigrationKeepsWellFormed` | backend/scripts/messageMigration.js:18-24 | the migrated collection satisfies the store invariant with the same id counter |
| `ChatClient.ErrorText` | frontend/src/store/useChatStore.js:43 | the recorded error is the server's message when it is non-empty, else the fallback text, and never empty when the fallback is not |
| `ChatClient.ChatStore.constructor` | frontend/src/store/useChatStore.js:7-14 | the store starts with no messages, no selected user, no error and both loading flags down |
| `ChatClient.ChatStore.SetError` | frontend/src/store/useChatStore.js:15 | sets the error and nothing else |
| `ChatClient.ChatStore.ClearError` | frontend/src/store/useChatStore.js:16 | clears the error and nothing else |
| `ChatClient.ChatStore.GetMessages` | frontend/src/store/useChatStore.js:34-50 | a missing or empty id changes nothing; a successful fetch replaces the list by the fetched one and leaves no error; a failed fetch keeps the list and records the error; the loading flag ends down in both cases |
| `ChatClient.ChatStore.SendMessage` | frontend/src/store/useChatStore.js:52-68 | without a selected user with an id, or without data, nothing changes; on success the list is the list as it was at the start with the response appended at the end, and the error is clear; on failure the list is kept and the error recorded |
| `ChatClient.ChatStore.OnNewMessage` | frontend/src/store/useChatStore.js:82-89 | a pushed message is appended iff its sender is the subscribed peer; otherwise the list is unchanged; nothing else changes |
| `ChatClient.ChatStore.SetSelectedUser` | frontend/src/store/useChatStore.js:99-104 | sets the selected user; only a user with an id triggers the fetch, whose effect on list and error is that of GetMessages |
| `ChatClient.ChatStore.Cleanup` | frontend/src/store/useChatStore.js:107-114 | leaves no messages, no selected user and no error |
| `MessageContent.TrimStart` | frontend/src/components/MessageContent.jsx:22 | the result is a suffix of the input, all cut characters are white space and it does not start with white space |
| `MessageContent.TrimEnd` | frontend/src/components/MessageContent.jsx:22 | the result is a prefix of the input, all cut characters are white space and it does not end with white space |
| `MessageContent.TrimIsSlice` | frontend/src/components/MessageContent.jsx:22 | the trimmed draft is the slice of the draft that starts right after its leading white space |
| `MessageContent.TrimCutIsWhitespace` | frontend/src/components/MessageContent.jsx:22 | every character after the trimmed draft's end is white space |
| `MessageContent.TrimIsInnerPart` | frontend/src/components/MessageContent.jsx:22 | the trimmed draft is a contiguous piece of the draft with only white space cut on either side, with no white space at its ends |
| `MessageContent.TrimEmptyIffBlank` | frontend/src/components/MessageContent.jsx:27 | a draft trims to the empty string iff it is all white space |
| `MessageContent.TrimIdempotent` | frontend/src/components/MessageContent.jsx:22 | trimming twice is trimming once |
| `MessageContent.DecideEdit` | frontend/src/components/MessageContent.jsx:21-31 | an undefined draft throws; the box closes without an edit iff the trimmed draft equals the current text; it stays open without an edit iff the draft trims to the empty string and the text is not empty; otherwise the untrimmed draft is submitted, and its trim is non-empty and differs from the text |
| `MessageContent.BlankDraftIsKept` | frontend/src/components/MessageContent.jsx:27 | the box stays open without an edit exactly when the draft is all white space and the text is not empty; a submitted draft always has a character that is not white space |
| `MessageContent.PaddedDraftIsResent` | frontend/src/components/MessageContent.jsx:22-28 | for every text whose trim differs from it and is not empty, submitting it unchanged sends it again as an edit |
| `MessageContent.PaddedTextIsResent` | frontend/src/components/MessageContent.jsx:22-28 | the unchanged text "hi " is submitted again as an edit, because the comparison trims only the draft |
| `MessageContent.Render` | frontend/src/components/MessageContent.jsx:44-129 | while the editor is open a live bubble shows neither the edit and delete buttons nor the edited mark; those buttons show only on the user's own message, and the edited mark only on an edited one |
| `MessageContent.ActionGate` | frontend/src/components/MessageContent.jsx:103 | edit and delete are offered iff the user is the sender, the box is closed and the message is not deleted; a deleted message renders with no action at all |
| `MessageContent.MessageBox.constructor` | frontend/src/components/MessageContent.jsx:7-8 | the box starts closed with the message's text as draft |
| `MessageContent.MessageBox.StartEditing` | frontend/src/components/MessageContent.jsx:106 | reachable only when the owner actions are shown; opens the box and keeps the draft; only the sender's own live message can be in editing mode |
| `MessageContent.MessageBox.DeleteClicked` | frontend/src/components/MessageContent.jsx:112 | reachable only when the owner actions are shown; asks to delete this message, which is the user's own and not deleted |
| `MessageContent.MessageBox.ChangeDraft` | frontend/src/components/MessageContent.jsx:75 | typing replaces the draft and keeps the box open |
| `MessageContent.MessageBox.HandleEdit` | frontend/src/components/MessageContent.jsx:21-31 | an edit request (message id, untrimmed draft) is issued iff the decision is to submit, and only for the user's own message; the box closes iff the trimmed draft equals the text, or the submitted call completes; the draft is kept |
| `MessageContent.MessageBox.Cancel` | frontend/src/components/MessageContent.jsx:84-87 | the cancel button closes the box and resets the draft to the message's text |
| `MessageContent.MessageBox.HandleKeyPress` | frontend/src/components/MessageContent.jsx:33-42 | Escape closes the box and resets the draft, issuing nothing; Enter without Shift behaves as HandleEdit; any other key, or Shift+Enter, changes nothing |

## Left out

- `getUsersForSidebar` and the client's `getUsers` and `users` list: they query the user collection, which is not part of this model.
- Persistence: loading, saving and `populate('replyTo')`. `Controller.GetMessages` returns `replyTo` as an id, not as the populated record. The `createdAt`/`updatedAt` timestamps are not modelled.
- The schema declares only sender, receiver, text and image. The model takes the nine-field record that the handlers and the migration use. New messages start with the migration's defaults. Mongoose's handling of undeclared paths is not modelled: the model assumes a schema that declares the five fields `isEdited`, `editHistory`, `replyTo`, `readBy` and `isDeleted`.
- Only an image upload failure is modelled as a 500. Other thrown errors (store unavailable, malformed ids) are not.
- HTTP success status codes (201 and 200) and the text of error bodies are not modelled. Errors carry their status through `Error.Status()`.
- Concurrency. Each handler's unguarded read-modify-write is modelled as one sequential step. The client store's `sendMessage` appends to the list as it was before the request, which equals the current list here. `setSelectedUser` does not await its fetch, but the model runs the fetch to completion.
- Socket plumbing: `getReceiverSocketId`, `io.to(...).emit` and the client's `on`/`off` subscription bookkeeping. `ChatStore.OnNewMessage` takes the selected user captured at subscription time as a parameter.
- `toast` notifications and console logging.
- From the bubble component: the JSX layout, the focus effect, the reply-preview text and the reply button's `setReplyingTo` call. frontend/src/store/useChatStore.js does not define `setReplyingTo`.
- `MessageController.Controller.GetMessages`: the source query has no sort, so it returns the matches in an order the database leaves unspecified. The model fixes increasing id order, which is its own choice.
- `MessageBox` fixes the `message` prop for the component's lifetime. In the component the prop can change between renders while the draft state persists, and Escape and cancel reset the draft to the current prop's text.
- The route files: they only wire the handlers to URLs and authentication.
