# One-to-one chat: realtime server, message store and client views in Dafny

This project models the core of a small one-to-one chat application: a
Socket.IO server that tracks which user is connected on which socket and relays
messages, edits, deletions and typing notices; the REST routes that read and
update the message store; and the client-side rules that keep the open
conversation, the message actions and the unread badges up to date.

## What is modelled

- **Records** (`message_model.dfy`, `user_model.dfy`). A `Message` has its
  sender, receiver, text, the `read`/`delivered`/`edited`/`deleted` flags and
  the two timestamps. A `User` has a username and an email, a password hash and
  presence. `Create` applies the message schema's required fields and defaults.
  `Revise` is `save()` of a changed document: `updatedAt` moves only when a field
  really changed. `NewUser` applies the user schema's `trim`/`lowercase` setters
  and its `required` rules. String normalisation lives in `text.dfy`.
- **Presence registry** (`presence.dfy`). `onlineUsers` is a JavaScript `Map`.
  It is modelled as an insertion-ordered list of bindings: `Set` keeps an
  existing key in place and appends a new one, and the disconnect lookup finds
  the first entry bound to a socket.
- **Socket handlers** (`realtime.dfy`, `realtime_laws.dfy`). The server state is
  the registry, the users and the messages. Each handler is one atomic
  transition that returns the next state and the emitted events, each with its
  audience: everyone, or one socket. The clock, the id the database gives a new
  row and whether `save()` resolves are parameters (`Env`).
- **REST routes** (`rest.dfy`):
  - register, with the duplicate-email check;
  - login, with its 400 and 401 answers;
  - the user directory;
  - the conversation query: `$or` filter plus sort by `createdAt`;
  - `POST /messages/send`;
  - the unread aggregation;
  - `PATCH /messages/read/:senderId`.
- **Client** (`chat_view.dfy`, `message_panel.dfy`, `user_list.dfy`):
  - the `setMessages` updaters of the four message events;
  - the fallback updates after a REST answer;
  - the self-exclusion filter;
  - which request a send, edit or delete becomes;
  - `isSentByCurrentUser`, and the send and edit input guards;
  - when the actions and the "(edited)" tag show;
  - conversion of the unread payload to a map, badge removal on select, the
    displayed count, and the active row.
- **End-to-end properties** (`scenarios.dfy`) connect a client action with the
  server's handling and the other client's view.

Ids of users, sockets and messages are one opaque type, with equality as their
only operation. The empty string stands for every falsy JavaScript value
(`undefined`, `null`, `""`). Times are natural numbers.

Where the documented design and the code disagree, the model follows the code:

- `message:edit` does not refuse a soft-deleted row. Its sender can give it new
  text, and the row stays `deleted` without the tombstone
  (`RealtimeLaws.EditAfterDeleteIsAccepted`).
- `disconnect` removes only the FIRST registry entry bound to the closing
  socket. A socket that declared two users leaves the second bound
  (`RealtimeLaws.SharedSocketLeavesStaleEntry`).
- The edit guard checks the untrimmed prompt answer for emptiness. A blank,
  non-empty answer gets through as an empty text, and the server's validation
  then refuses it (`MessagePanel.BlankEditPassesGuard`,
  `Scenarios.BlankEditReachesServerAndFails`).

## Model

| member | source | states |
|---|---|---|
| Text.TrimStart | client/src/Components/MessagePanel.jsx:63 | the result is a suffix of the input, everything dropped is white space, and it does not start with white space |
| Text.TrimEnd | client/src/Components/MessagePanel.jsx:63 | the result is a prefix of the input, everything dropped is white space, and it does not end with white space |
| Text.Trim | client/src/Components/MessagePanel.jsx:63-64 | the trimmed text is no longer than the input and neither starts nor ends with white space |
| Text.TrimIsSlice | client/src/Components/MessagePanel.jsx:63-64 | the trimmed text is a contiguous slice of the input with only white space cut on either side |
| Text.TrimStartEmptyIffBlank | client/src/Components/MessagePanel.jsx:63 | stripping leading white space leaves nothing exactly when the input is all white space |
| Text.TrimEmptyIffBlank | client/src/Components/MessagePanel.jsx:63 | `text.trim()` is empty exactly when the text is all white space |
| Text.TrimIdempotent | server/Models/usermodel.js:11 | trimming an already-trimmed value changes nothing |
| Text.Lower | server/Models/usermodel.js:17 | lower-casing keeps the length, leaves no upper-case letter and maps each character by itself |
| Text.LowerIdempotent | server/Models/usermodel.js:17 | lower-casing a lower-cased value changes nothing |
| MessageModel.Create | server/Models/message.js:7-15 | a message is created exactly when sender, receiver and text are present; read, edited and deleted default to false; both timestamps are the creation time |
| MessageModel.Revise | server/index.js:120-122 | saving a revision fails exactly when the text is empty; identity, read and delivered are kept; an unchanged document keeps its update time, a changed one takes the save time |
| MessageModel.Find | server/index.js:117 | `findById` finds a row exactly when the id is stored, and finds the first row with that id |
| MessageModel.FindUnique | server/index.js:117 | in a store with unique ids, looking up a row's id finds that row |
| MessageModel.AppendKeepsValid | server/index.js:101-102 | appending a well-formed row with a fresh id keeps ids unique and adds exactly that id |
| MessageModel.UpdateKeepsValid | server/index.js:122 | overwriting a row with a well-formed row of the same id keeps the store valid and its ids |
| UserModel.NormalizeEmailIdempotent | server/Models/usermodel.js:13-19 | normalising a stored email again gives it back, so a stored email matches a query for itself |
| UserModel.NormalizeUsername | server/Models/usermodel.js:11 | the username setter empties exactly the blank names, its result is stable under a second trim, and it never grows the name |
| UserModel.NormalizeEmail | server/Models/usermodel.js:17-18 | the email setters never grow the address |
| UserModel.NormalizeEmailShape | server/Models/usermodel.js:17-18 | the stored address is a slice of the lower-cased input with no upper-case ASCII letter and no white space at either end |
| UserModel.NormalizeEmailEmptyIffBlank | server/Models/usermodel.js:15-18 | the email setters empty an address exactly when it is blank once lower-cased, so `required` refuses exactly those |
| UserModel.NewUser | server/Models/usermodel.js:7-31 | a user is created exactly when the normalised username and email and the hash are non-empty; it carries the id, the normalised fields, the hash and the presence fields it was given, and a refused document reports the validation error |
| UserModel.FindFirst | server/API/user.js:16 | `findOne` returns the first user accepted by the filter, or none when no user is |
| UserModel.FindByEmail | server/API/user.js:16 | the email lookup normalises the query; it finds a user with that normalised email, or reports that none has it |
| UserModel.SetPresence | server/index.js:92 | `findByIdAndUpdate` sets the presence fields of the user with that id only; accounts and ids stay; an unknown id changes nothing |
| UserModel.SetPresenceKeepsValid | server/index.js:92 | any presence update keeps the users collection valid: required fields and unique ids, usernames and emails |
| Presence.Get | server/index.js:104 | `onlineUsers.get` finds a socket exactly when the user has an entry, and the entry binds the user to it |
| Presence.GetBound | server/index.js:66 | in a registry with unique keys, every entry is what `get` returns for its user |
| Presence.Set | server/index.js:91 | `set` grows the registry by one exactly when the user had no entry |
| Presence.SetGet | server/index.js:91 | after `set`, the user maps to the new socket and every other user's lookup is unchanged (last bind wins) |
| Presence.SetUsers | server/index.js:91 | after `set`, the keys are the old keys plus the user |
| Presence.SetUnique | server/index.js:91 | `set` keeps keys unique |
| Presence.SetAppends | server/index.js:91 | setting a new key appends its entry at the end, in insertion order |
| Presence.SetEntries | server/index.js:91 | every entry after `set` is an old entry or the new binding |
| Presence.Delete | server/index.js:174 | `delete` removes the user's entry and no other lookup changes |
| Presence.FindBySocket | server/index.js:169-171 | the search finds a user exactly when some entry is bound to the socket, and returns the first such entry's user |
| Presence.FindBySocketBound | server/index.js:169-171 | with unique keys, the user found for a socket is bound to that socket |
| Realtime.Route | server/index.js:104-105 | a user is reachable exactly when it has a bound, truthy socket id |
| Realtime.ToUser | server/index.js:104-105 | an event for a user is one emission to its bound socket when it is reachable, else nothing |
| Realtime.OnUserOnline | server/index.js:89-94 | a falsy id changes nothing; otherwise the user is bound to this socket, replacing an earlier binding, marked online with no last-seen time, and its status goes to everyone |
| Realtime.OnSend | server/index.js:97-112 | a falsy sender, receiver or text changes nothing; otherwise exactly one row is stored with delivered set and the other flags clear; message:new goes to the reachable receiver, message:sent with the same row to the sender; a refused save emits only the error |
| Realtime.OnEdit | server/index.js:115-132 | a missing row or a non-sender changes nothing; otherwise only the text and edited flag of that row change, plus its update time, which moves to the save time exactly when something changed; a deleted row is not refused, and message:edited goes to the receiver's and the requesting socket; empty text or a refused save emits only the error |
| Realtime.OnDelete | server/index.js:135-152 | a missing row or a non-sender changes nothing; otherwise only that row changes, to deleted with the tombstone text, its update time moving to the save time exactly when something changed, and message:deleted goes to the receiver's and the requesting socket; a refused save emits only the error |
| Realtime.OnTyping | server/index.js:155-164 | the state never changes; the event carrying only the sender goes to the receiver exactly when the receiver is reachable |
| Realtime.OnDisconnect | server/index.js:167-179 | when no entry holds the socket, nothing changes; otherwise the found user's entry is deleted, the user is offline with last-seen now, and that status with the same time goes to everyone |
| Realtime.Handle | server/index.js:85-180 | no handler removes a stored message |
| RealtimeLaws.OnlineKeepsValid | server/index.js:89-94 | `user:online` keeps the state invariant |
| RealtimeLaws.DisconnectKeepsValid | server/index.js:167-179 | `disconnect` keeps the state invariant |
| RealtimeLaws.SendKeepsValid | server/index.js:97-112 | `message:send` keeps the state invariant |
| RealtimeLaws.EditKeepsValid | server/index.js:115-132 | `message:edit` keeps the state invariant |
| RealtimeLaws.DeleteKeepsValid | server/index.js:135-152 | `message:delete` keeps the state invariant |
| RealtimeLaws.HandleKeepsValid | server/index.js:85-180 | every handler keeps the state invariant: valid collections, unique non-empty registry keys, registered users online |
| RealtimeLaws.HandleKeepsIdentity | server/index.js:85-180 | no handler removes a row or changes its id, sender, receiver, creation time or read flag |
| RealtimeLaws.LastSeenOnlyOnDisconnect | server/index.js:176 | only disconnect sets a last-seen time; every other handler keeps or clears it |
| RealtimeLaws.StaleDisconnectKeepsBinding | server/index.js:167-179 | closing a socket never evicts a user bound to a different socket, nor marks it offline |
| RealtimeLaws.ReconnectThenStaleClose | server/index.js:91 | bind on c1, then on c2, then close c1: the user stays bound to c2 and online, and nothing is emitted |
| RealtimeLaws.SharedSocketLeavesStaleEntry | server/index.js:169-174 | two users declared on one socket: closing it removes the first only, the second stays bound |
| RealtimeLaws.SendFanOut | server/index.js:104-107 | message:new goes to the receiver exactly when it is reachable, message:sent always goes back, both carry the stored row |
| RealtimeLaws.FindAfterOverwrite | server/index.js:117 | looking up an id after overwriting its row with one of the same id finds the same position |
| RealtimeLaws.DeleteIdempotent | server/index.js:137-142 | repeating a saved delete, from any socket at any time, leaves the state unchanged |
| RealtimeLaws.DeletePropagates | server/index.js:140-147 | after a saved delete the row is deleted with the tombstone, and message:deleted with it reaches the requester and a reachable receiver |
| RealtimeLaws.EditAfterDeleteIsAccepted | server/index.js:118 | the sender can edit a deleted row, which keeps deleted but loses the tombstone text |
| Rest.Register | server/API/user.js:13-43 | an email already registered is answered 400 and creates nothing, and so is a body without email once any user is stored (the lookup then matches any user); an absent password is a 500 before anything is saved; registration succeeds exactly when the body has an email that is new, a password (possibly empty) is given, the normalised username and email and the hash are non-empty and neither the `_id` nor the username is taken; then exactly one well-formed user is appended, with the body's `_id` if it has one, the normalised fields, the hash and the body's presence fields |
| Rest.AbsentEmailRefused | server/API/user.js:16-25 | a body without email is refused with 400 when any user is stored and with 500 from validation when none is |
| Rest.RegisterKeepsValid | server/API/user.js:24-25 | a successful registration keeps ids, usernames and emails unique |
| Rest.AppendUserKeepsValid | server/API/user.js:25 | appending a well-formed user whose id, email and username are all new keeps the collection valid |
| Rest.Login | server/API/user.js:48-79 | a missing email or password is answered 400 before any lookup; an unknown email 401; for a known email, login succeeds exactly when the password matches that user's hash, naming that user, and is otherwise 401 |
| Rest.Directory | server/API/user.js:82-85 | every user is listed in order with every field but the password |
| Rest.DirectoryIgnoresPassword | server/API/user.js:82-85 | two collections list the same directory exactly when they hold the same users in the same order up to passwords |
| Rest.Matching | server/API/user.js:99-103 | the filter keeps exactly the rows between the two users, in either direction, each as often as stored |
| Rest.InsertByTime | server/API/user.js:104 | inserting into a chronological list keeps it chronological and adds exactly that row |
| Rest.SortByTime | server/API/user.js:104 | the sort is a chronological permutation of its input |
| Rest.Conversation | server/API/user.js:95-107 | the history holds exactly the rows between the two users, with their multiplicity, ascending by creation time |
| Rest.MatchingSymmetric | server/API/user.js:99-103 | the filter gives the same rows whichever party asks |
| Rest.ConversationSymmetric | server/API/user.js:99-104 | both parties fetch the same ordered history |
| Rest.PostSend | server/API/user.js:110-131 | a missing receiver or text is answered 400 and stores nothing; otherwise one row is stored from the authenticated user, never the body's sender, with delivered set |
| Rest.UnreadFromPositive | server/API/user.js:136-139 | a sender's unread count is positive exactly when an unread row from it to the user exists |
| Rest.UnreadCounts | server/API/user.js:133-142 | a sender appears exactly when it has unread rows to the user, with their number |
| Rest.MarkRead | server/API/user.js:145-155 | exactly the rows from the sender to the caller become read; no row loses read; nothing but read and the update time changes |
| Rest.MarkReadIdempotent | server/API/user.js:149-152 | marking read twice is marking read once, whatever the second call's time |
| Rest.MarkReadKeepsValid | server/API/user.js:149-152 | marking read keeps ids unique and rows well-formed |
| Rest.UnreadFromAfterMarkRead | server/API/user.js:149-152 | after marking a sender read, its unread count is zero and every other sender's is unchanged |
| Rest.UnreadAfterMarkRead | server/API/user.js:136-152 | after marking a sender read, the unread map is the old map without that sender |
| ChatView.OnMessageNew | client/src/Components/Chat.jsx:44-53 | a new message is appended exactly when a partner is open and it is from or to that partner |
| ChatView.OnMessageSent | client/src/Components/Chat.jsx:55-67 | an acknowledgement is appended exactly when it concerns the partner and its id is not listed yet |
| ChatView.OnMessageSentIdempotent | client/src/Components/Chat.jsx:61-65 | applying the same acknowledgement twice equals applying it once |
| ChatView.OnMessageSentKeepsDistinct | client/src/Components/Chat.jsx:61-65 | the acknowledgement keeps listed ids distinct |
| ChatView.AppendsKeepConversation | client/src/Components/Chat.jsx:44-67 | both appending updates keep a list in which every row is from or to the partner |
| ChatView.Substitute | client/src/Components/Chat.jsx:70 | replace-by-id keeps length and order, swaps in the new row where the id matches and keeps every other row |
| ChatView.SubstituteUnknownIsNoop | client/src/Components/Chat.jsx:69-75 | an id not listed leaves the list unchanged |
| ChatView.SubstituteSameId | client/src/Components/Chat.jsx:69-75 | replacing by a row with the same id is idempotent, keeps every position's id, and keeps ids distinct |
| ChatView.OnMessageReplaced | client/src/Components/Chat.jsx:69-75 | an edited or deleted row from the server takes the place of its listed copy and nothing else changes; the message panel registers a second pair of these listeners (`MessagePanel.jsx:24-40`), so each event is applied twice, which SubstituteSameId shows changes nothing |
| ChatView.SendFallback | client/src/Components/Chat.jsx:126-128 | the fallback send appends the answer's row when there is one, otherwise changes nothing |
| ChatView.EditFallback | client/src/Components/Chat.jsx:146-150 | the fallback edit replaces only the rows whose id is the edited id, when the answer carries a row |
| ChatView.EditFallbackAgreesWithSocket | client/src/Components/Chat.jsx:69-75 | an edit answer carrying the edited row updates the list exactly as the socket's edited event with that row |
| ChatView.DeleteFallback | client/src/Components/Chat.jsx:166-173 | on success the row with the id becomes deleted with the server's tombstone text; every other field and row stays |
| ChatView.OtherUsers | client/src/Components/Chat.jsx:24 | the user list keeps exactly the listed users other than the current one, in their order |
| ChatView.SendMessage | client/src/Components/Chat.jsx:108-123 | no partner means no request; when the socket object exists (from the moment the chat view opens, connected or not) the emit carries the current user as sender and the partner as receiver; the REST fallback otherwise |
| ChatView.EditMessage | client/src/Components/Chat.jsx:134-145 | no message id means no request; when the socket object exists (from the moment the chat view opens, connected or not) the emit names the current user as editor; the REST fallback otherwise |
| ChatView.DeleteMessage | client/src/Components/Chat.jsx:156-165 | no message id means no request; when the socket object exists (from the moment the chat view opens, connected or not) the emit names the current user as requester; the REST fallback otherwise |
| MessagePanel.CurrentIds | client/src/Components/MessagePanel.jsx:56 | the identifiers are exactly the user's non-empty id, _id and email |
| MessagePanel.SentByCurrentUser | client/src/Components/MessagePanel.jsx:54 | a row with an empty sender is never the current user's |
| MessagePanel.SentByCurrentUserIff | client/src/Components/MessagePanel.jsx:54-58 | a row is the current user's exactly when its sender is non-empty and equals the user's id, _id or email |
| MessagePanel.SendInput | client/src/Components/MessagePanel.jsx:61-66 | something is sent exactly when a partner is open and the input is not blank, and it is the trimmed, non-empty input |
| MessagePanel.EditInput | client/src/Components/MessagePanel.jsx:68-72 | nothing is sent for a cancelled or empty answer or one whose trim is the current text; otherwise the trimmed answer, which differs from it |
| MessagePanel.BlankEditPassesGuard | client/src/Components/MessagePanel.jsx:70-71 | a blank, non-empty answer passes the edit guard and sends the empty text |
| MessagePanel.ShowsActions | client/src/Components/MessagePanel.jsx:101 | the actions show only on a non-deleted row with a non-empty sender |
| MessagePanel.ShowsEditedTag | client/src/Components/MessagePanel.jsx:96 | the tag shows only on edited rows and never on a deleted one |
| MessagePanel.DeletedRowsAreInert | client/src/Components/MessagePanel.jsx:96-101 | a deleted row shows neither the actions nor the edited tag; a row showing actions has a non-empty sender |
| UserList.CountsMap | client/src/Components/UserList.jsx:22-26 | the `forEach` gives at most one key per element and the last element's assignment stands; CountsMapKeys and CountsMapLast give its keys and values |
| UserList.CountsMapKeys | client/src/Components/UserList.jsx:22-26 | an id is a key of the converted map exactly when some payload element carries it |
| UserList.CountsMapLast | client/src/Components/UserList.jsx:22-26 | the value for an id is the count of the last payload element carrying it |
| UserList.EnumerationConverts | client/src/Components/UserList.jsx:22-27 | converting any listing of a map, in whatever order, gives back that map |
| UserList.ClearBadge | client/src/Components/UserList.jsx:50-54 | the selected user's key is removed and every other key keeps its value |
| UserList.DisplayedCount | client/src/Components/UserList.jsx:68 | the displayed count is the map's value for the user, or 0 when the user has no key |
| UserList.ShowsBadge | client/src/Components/UserList.jsx:81 | the badge shows exactly when the user has a key with a positive count |
| UserList.IsActive | client/src/Components/UserList.jsx:69 | only a row carrying the selected, non-empty id is active |
| UserList.UnreadQueryId | client/src/Components/UserList.jsx:15 | the unread query names the current user's `_id`, and the text "undefined" exactly when that field is missing |
| UserList.ClearBadgeHides | client/src/Components/UserList.jsx:68 | after clearing, the selected user shows no badge and every other displayed count is unchanged |
| UserList.ActiveRowIsSelected | client/src/Components/UserList.jsx:69 | a row is active exactly when a user is selected and the row carries its id |
| Scenarios.SendPathsAgree | server/API/user.js:110-125 | the socket send and the REST fallback store the same row for the same send |
| Scenarios.FallbackSendAppendsPostedRow | client/src/Components/Chat.jsx:126-128 | the fallback send appends the posted row whatever the partner; where the acknowledgement skips an already-listed id, the fallback lists it twice |
| Scenarios.ComposedSendStoresRow | client/src/Components/Chat.jsx:108-117 | a non-blank input to the open partner ends as one stored row from the current user to that partner with the trimmed text |
| Scenarios.DeliveredToBothViews | server/index.js:104-107 | a reachable receiver gets the row and its open conversation gains it; the sender's list gains it once, however often the acknowledgement arrives |
| Scenarios.OfflineReceiverReadsLater | server/index.js:104-107 | for an unreachable receiver only the acknowledgement goes out, and the row is in the receiver's history, unread, raising its unread count by one |
| Scenarios.BlankEditReachesServerAndFails | client/src/Components/MessagePanel.jsx:68-72 | a blank edit reaches the server as empty text; the state stays and the owner gets only the error |
| Scenarios.EditedRowShowsTag | client/src/Components/MessagePanel.jsx:96 | after an edit of a row that is not deleted, the edited tag shows and the author keeps the actions |
| Scenarios.DeletedRowIsInert | client/src/Components/MessagePanel.jsx:101 | a row the server deleted shows neither actions nor the edited tag to anyone |
| Scenarios.DeleteFallbackMatchesServer | client/src/Components/Chat.jsx:166-173 | the fallback delete marks a listed row as the server does, except for the update time; the socket path shows the server's row itself |
| Scenarios.DeleteRequestAcceptedIff | server/index.js:135-152 | a delete made while the socket object exists names the current user as requester, and the server answers it exactly when that user is the stored sender; otherwise nothing changes |
| Scenarios.BadgeMatchesServer | client/src/Components/UserList.jsx:14-26 | whatever order the unread groups come in, a user's badge is its number of unread rows to the id the query names |
| Scenarios.LoggedInUserSeesNoBadges | client/src/Components/UserList.jsx:15 | for a current user without `_id`, as the login hands over, the unread map is empty and no badge shows unless some row is addressed to the text "undefined" |
| Scenarios.ClearedBadgeMatchesRefetch | client/src/Components/UserList.jsx:43-54 | the badge is cleared once the request resolves; the cleared map agrees with the next refetch on every other user; if the server applied the update it agrees fully and no badge shows, and if not the refetch shows the old count again |
| Scenarios.RegisteredUserLogsIn | server/API/user.js:54-62 | a user who has just registered with a non-empty password logs in with the same email and password, as the saved id |
| Scenarios.EmptyPasswordAccountCannotLogIn | server/API/user.js:21-25 | an account registered with the empty password is saved with its hash but no login to it succeeds |
| Scenarios.SecondRegistrationRefused | server/API/user.js:16-19 | registering an already-registered address again, in any letter case or with surrounding blanks, is answered 400 |

## Left out

- Express, CORS, the MongoDB connection and `server.listen` are transport
  plumbing; emits are an abstract list of (audience, event) pairs.
- Interleaving between the `await`s inside a handler is not modelled: each
  handler is one atomic transition.
- bcrypt hashing and JWT signing and checking are left out. The hasher's output
  (`passwordHash`) and the hash comparison (`matches`) are parameters. The
  authentication middleware is not part of this model; the authenticated user id
  is a given parameter.
- Mongoose type casting of ids is not modelled: ids compare by equality. For
  example, the unread `$match` compares a raw string with an ObjectId field.
- Realtime.OnUserOnline: the awaited presence update has no `try`/`catch`, so a
  database failure there stops the handler after the binding. The model always
  completes the update.
- Realtime.OnUserOnline: the broadcast status payload has no `lastSeen` field.
  The model's `None` stands for that absent field.
- The audience of `io.emit` (every connected socket, the emitting one included)
  is named `Everyone`; the set of connected sockets is not modelled.
- The admin delete-by-username route (`server/API/user.js:88-92`) is an
  administrative side channel.
- React rendering, effects, scrolling, the 5-second unread polling,
  reconnection on partner change, and `prompt`/`confirm` are left out. A prompt
  answer is a parameter: `None` means cancelled.
- `formatTime` depends on date parsing and the locale.
- App.jsx, Login.jsx, Register.jsx, api.js and socket.js are form state and
  configuration and are not part of this model.
- The REST edit and delete endpoints called by Chat.jsx do not exist on the
  server. The fallbacks are modelled from the client side only, with the answer
  (`payload` or `success`) as a parameter.
- Text.Lower: lower-cases ASCII letters only, weaker than
  `String.prototype.toLowerCase`, which also folds other Unicode letters.
- Rest.SortByTime: MongoDB does not fix the order of rows with equal
  `createdAt`. The model is one insertion sort, and its contracts (chronological
  order, same rows) hold for any order the database picks. Tie order is not
  stated.
- Rest.Register: the check-then-insert race between two concurrent
  registrations of one email, which the `unique` index decides, is out of scope
  because there is no concurrency. The `unique` indexes on usernames and `_id`
  are modelled as a 500.
- Rest.Register: the body is stored whole, so the model takes its `_id`,
  `isOnline` and `lastSeen`. A body `_id` that is not a valid ObjectId fails the
  cast in the code; the model's opaque ids accept it. Body `createdAt` and
  `updatedAt` fall under the user timestamps below.
- Realtime.OnDisconnect: the awaited presence update (`server/index.js:176`) has
  no `try`/`catch`. If it rejects, the registry entry is already deleted, the
  user stays online in the database and no status is broadcast. The model always
  completes the update.
- Scenarios.ClearedBadgeMatchesRefetch: the mark-read request and the refetch
  name one user `me`. The deployed client queries "undefined" instead
  (Scenarios.LoggedInUserSeesNoBadges). A request that rejects without an
  answer, which keeps the badge, is not modelled.
- Scenarios.BadgeMatchesServer: the queried id is the current user's `_id` field
  as rendered into the path. The authenticated id behind the token plays no
  part, since the unread route does not check it.
- User timestamps (`createdAt`, `updatedAt` on users) are not read by the core
  and are not modelled.
- ChatView.OnMessageSent: with no partner open, the code compares ids against
  the string "undefined". The model treats an absent partner as matching no
  row; the two differ only for an id that literally reads "undefined".
