# deb8 room logic in Dafny

deb8 is a web application for hosting debates. A user creates a debate and other users join it. Each debate has a title, a capacity between 2 and 10, a duration, a voice or text format, a mode and topic tags. Text debates run as socket rooms with a shared message history. Voice debates run as rooms of peer connections.

This project models the part of deb8 that keeps room state:

- the socket server's cookie parser, authentication step, `join_room` and `send_message` guards, and the per-debate message history capped at 500 messages;
- the REST controller's create, join, leave, update and delete, and the counter/participant-list invariant they keep;
- the Mongoose schema of a debate, as a datatype and a validity predicate;
- the client-side reducers:
  - the home-page filter;
  - both filter bars;
  - the create-debate form;
  - the translation lookup;
  - the card's author test;
  - the text room's message and typing state;
  - the voice room's participant list and peer maps.

Each source file becomes one module:

| module | file |
|---|---|
| `SocketServer` | server/src/socket.js |
| `DebateController` | server/src/controllers/debate.controller.js |
| `DebateModel` | server/src/models/debate.model.js |
| `Home` | client/src/pages/Home.jsx |
| `FilterState` | the reducers that client/src/components/Filterbar.jsx and client/src/components/FilterBarI18n.jsx share |
| `FilterBarI18n` | the clamped min/max edit, which only the translated bar has |
| `CreateDebateForm` | client/src/components/CreateDebateModal.jsx |
| `Locale` | client/src/i18n/LocaleProvider.jsx |
| `DebateCard` | client/src/components/DebateCard.jsx |
| `DebateRoom` | client/src/pages/DebateRoom.jsx |
| `VoiceRoom` | client/src/pages/VoiceDebateRoom.jsx |

The remaining modules hold the JavaScript built-ins that the code relies on:

- `Text`: `trim`, `split` and `join`;
- `Numbers`: `Number()`, `parseInt` and integer `toString`;
- `Js`: truthiness, `||`, `??`, optional property reads, `String()` and `===`;
- `Wrappers`: `Option` and `Result`.

Where the code updates something in place, the model does too:

- The module-level message store is the class `SocketServer.MessageStore`. It holds a map from debate id to history, and `Append` performs the push-then-shift.
- The debates that the controller finds, mutates and saves are the class `DebateController.DebateCollection`. Each of its methods is tied by its `ensures` to a specification function on debate values (`Created`, `JoinRefusal`/`Joined`, `Left`, `AuthorRefusal`). The lemmas about those functions carry the invariants.
- The voice room's three ref maps are the class `VoiceRoom.PeerRegistry`. Its `StopAudio` is a loop over the connection keys.

Everything else is a pure function over values, as in the source.

The socket server has no handlers for `join_voice_room` or the `webrtc_*` events. The model therefore has no server-side voice room, no turn arbiter, no moderator and no signalling relay.

## Model

| member | source | states |
|---|---|---|
| SocketServer.CookiePart | server/src/socket.js:17-19 | a trimmed part is cut at its first `=`: the key holds no `=`, key + "=" + value rebuilds the trimmed part, and a part without `=` gives its whole text as key and `''` as value |
| SocketServer.FoldIsLastBinding | server/src/socket.js:16-21 | the `reduce` over the parts binds a key iff some part with that key exists, and binds it to the value of the last such part |
| SocketServer.NoEmptyKey | server/src/socket.js:18 | a part whose key is empty never contributes a binding |
| SocketServer.ParseCookiesLastWins | server/src/socket.js:15-21 | `parseCookies` of a header binds exactly the keys of its `;`-separated parts, the later value wins, and the empty key is never bound |
| SocketServer.EmptyHeader | server/src/socket.js:15-21 | the empty header parses to the empty map |
| Text.SplitOnePiece | server/src/socket.js:16-17 | `split` gives a single piece exactly when the separator does not occur |
| Text.SplitPiecesLackSeparator | server/src/socket.js:16-17 | no piece of a split contains the separator |
| Text.JoinSplit | server/src/socket.js:17-19 | splitting at a separator and joining the pieces with it gives back the text, so a cookie value that contains `=` is kept whole |
| SocketServer.Authenticate | server/src/socket.js:36-47 | with `b` the last `token` binding: refused with "No token" iff `b` is missing or empty, refused as unauthorized iff `b` is non-empty and verification fails, let in iff `b` is non-empty and verifies, carrying the user verification produced |
| SocketServer.FindEntry | server/src/socket.js:111-114 | the `find` over the populated entries succeeds iff some entry's id (`user._id`, else `user`, else `''`) equals the caller, and what it finds is one of the entries, with that id |
| SocketServer.RoomMembership | server/src/socket.js:62-65 | for a non-empty caller id, passing the participant check is being listed in the debate and still existing as a user |
| SocketServer.Pushed | server/src/socket.js:121-124 | after push-then-shift the history is the newest entries of old history + message, its last element is the message, and it grows by one only below 500 |
| SocketServer.PushedEvictsOldest | server/src/socket.js:122-124 | from at most 500 entries the history stays at most 500; below the cap nothing is dropped, at the cap exactly the oldest entry is dropped |
| SocketServer.MessageStore.Append | server/src/socket.js:121-125 | the debate's entry becomes the pushed history, every other debate's history is unchanged, and the 500 cap is preserved |
| SocketServer.MessageStore.SendMessage | server/src/socket.js:100-125 | the reply is the validation result; a refused message changes no history, and an accepted one is pushed onto its debate's history |
| SocketServer.CheckMessage | server/src/socket.js:102-120 | refused as invalid iff debate id or content is missing or the content is blank; otherwise not-found iff the debate is missing, then not-participant iff the caller is not listed; an accepted message holds the trimmed content, the caller's id, the time and the `SenderName` of the caller's first entry |
| SocketServer.ListedCallerAccepted | server/src/socket.js:102-120 | a message with a debate id and non-blank content, from a listed caller of an existing debate, is accepted |
| SocketServer.SenderIsCallersName | server/src/socket.js:111-117 | an accepted sender is in the users collection, and the message carries their username, or `'Usuario'` when it is empty |
| SocketServer.BlankRefusedBeforeLookup | server/src/socket.js:102 | blank content is refused whatever debates exist |
| SocketServer.Members | server/src/socket.js:76 | the summary's participant list exists iff every entry's user is still there, and then holds, in order, each entry's id and username |
| SocketServer.JoinRoom | server/src/socket.js:51-77 | a successful join names an existing debate and replies with that debate's stored history (or `[]`) and its title, mode, status and one member per participant, in order, with the participant's id and username |
| SocketServer.JoinRoomChecksInOrder | server/src/socket.js:53-77 | id missing, not found, `Cerrado`, format not `Texto`, caller not listed, a participant's user missing: each refusal is reported iff every earlier check passed and it fails, and the join succeeds iff all of them pass |
| SocketServer.JoinRoomRefusedOnDeletedUser | server/src/socket.js:76 | as written, a listed caller is refused when another participant's user no longer exists, because the summary reads `p.user.id` of `null` |
| DebateModel.ParseFormat | server/src/models/debate.model.js:35-39 | a format is accepted iff it is `Voz` or `Texto`, and the accepted value stores that name |
| DebateModel.ParseMode | server/src/models/debate.model.js:40-44 | a mode is accepted iff it is `Libre`, `Por turnos` or `Moderado`, and the accepted value stores that name |
| DebateModel.NamesRoundTrip | server/src/models/debate.model.js:35-53 | every format and mode is accepted back from its stored name |
| DebateModel.NoFailures | server/src/models/debate.model.js:4-44 | an input with no failing path has its required text, author, capacity in [2,10], duration in [5,120], format and mode |
| DebateModel.New | server/src/models/debate.model.js:3-66 | creation fails iff some path fails, reporting exactly those paths; a created debate is valid, `Abierto`, counts 1, has no participants yet, and stores the trimmed title, description and tags, the given capacity and duration, and the format and mode named in the input |
| DebateController.FindIndex | server/src/controllers/debate.controller.js:122-124 | `findIndex` is -1 iff no entry has the user, and otherwise the first entry that has it |
| DebateController.Created | server/src/controllers/debate.controller.js:6-24 | fails with exactly the failing paths; otherwise it is `New`'s record with the author as its first and only participant, valid and consistent, `Abierto`, with missing tags defaulted to `[]` |
| DebateController.JoinRefusalOrder | server/src/controllers/debate.controller.js:77-93 | join refuses with not-open iff not `Abierto`, then already-participant iff listed, then full iff count ≥ capacity, and accepts iff none holds |
| DebateController.JoinPreservesConsistency | server/src/controllers/debate.controller.js:91-99 | an accepted join keeps count == list length, no duplicate users, and count ≤ capacity; the count grows by one and the caller is listed |
| DebateController.LeavePreservesConsistency | server/src/controllers/debate.controller.js:122-132 | an accepted leave keeps the debate consistent, and the caller is no longer listed |
| DebateController.LeaveKeepsOthers | server/src/controllers/debate.controller.js:131-132 | leave removes the first matching entry, keeps the others in order, and decrements the count |
| DebateController.JoinThenLeave | server/src/controllers/debate.controller.js:96-132 | joining then leaving as the same user restores the participants and the count exactly |
| DebateController.AuthorRefusal | server/src/controllers/debate.controller.js:150-157 | 404 iff the debate is missing; 403 iff it exists and the caller is not its author; no refusal otherwise |
| DebateController.DebateCollection.Create | server/src/controllers/debate.controller.js:6-25 | stores the created debate under its new id, or changes nothing when validation fails; consistency of the collection is preserved |
| DebateController.DebateCollection.Join | server/src/controllers/debate.controller.js:70-101 | 404 and every refusal leave the collection unchanged; an accepted join stores `Joined`; consistency is preserved |
| DebateController.DebateCollection.Leave | server/src/controllers/debate.controller.js:114-134 | 404 and the non-participant 400 change nothing; otherwise the debate becomes `Left` at the first matching index; consistency is preserved |
| DebateController.DebateCollection.CheckUpdate | server/src/controllers/debate.controller.js:147-157 | the update guard refuses as `AuthorRefusal` says and lets only the author through |
| DebateController.DebateCollection.Delete | server/src/controllers/debate.controller.js:176-188 | a refused delete changes nothing; an allowed one removes exactly that debate |
| FilterState.InputChange | client/src/components/Filterbar.jsx:42-50 | the plain bar sets exactly the named field of the named group; every other group and the dropdown are unchanged |
| FilterState.Without | client/src/components/Filterbar.jsx:56 | the filter leaves no copy of the option, keeps exactly the other items, and is shorter when the option was there |
| FilterState.WithoutAppend | client/src/components/Filterbar.jsx:56 | removing commutes with appending, so the remaining items keep their order |
| FilterState.Toggle | client/src/components/FilterBarI18n.jsx:98-100 | a selected option is removed (every copy), an unselected one is appended at the end |
| FilterState.ToggleTwice | client/src/components/Filterbar.jsx:55-57 | toggling an unselected option twice gives back the original selection |
| FilterState.MultiSelectChange | client/src/components/FilterBarI18n.jsx:95-102 | the toggle applies to the named group only; the other groups and the dropdown are unchanged |
| FilterState.FilterClick | client/src/components/FilterBarI18n.jsx:76-78 | clicking the open filter closes it, clicking any other opens that one; values are unchanged |
| FilterState.Apply | client/src/components/FilterBarI18n.jsx:104-108 | apply reports the current values, takes them as the new snapshot so nothing counts as changed, and closes the dropdown |
| FilterState.Clear | client/src/components/Filterbar.jsx:67-79 | clear empties all five groups, reports and snapshots the cleared values so nothing counts as changed, and closes the dropdown |
| FilterState.ClearFromMounted | client/src/components/FilterBarI18n.jsx:67-74 | right after mounting nothing counts as changed, and clearing then gives back the mounted state |
| FilterBarI18n.InputChange | client/src/components/FilterBarI18n.jsx:80-93 | the clamped edit changes only the named group |
| FilterBarI18n.ClampOrdersBounds | client/src/components/FilterBarI18n.jsx:83-90 | after a non-empty edit, whenever both fields read as numbers the maximum exceeds the minimum |
| FilterBarI18n.ClampKeepsMin | client/src/components/FilterBarI18n.jsx:82-84 | the minimum is stored exactly as typed, whichever field was edited |
| FilterBarI18n.ClampOnlyRewritesMax | client/src/components/FilterBarI18n.jsx:82-90 | a maximum that differs from what was typed (or left) reads as exactly minimum + 1 |
| FilterBarI18n.EmptyEditUnclamped | client/src/components/FilterBarI18n.jsx:85-89 | an empty edit stores `''` in its field and leaves the other field alone |
| FilterBarI18n.MinEditFillsEmptyMax | client/src/components/FilterBarI18n.jsx:83-86 | typing a non-negative minimum while the maximum is empty writes minimum + 1 into the maximum, because `Number('')` is 0 |
| Numbers.NumberOfToString | client/src/components/FilterBarI18n.jsx:86 | `Number((n).toString())` gives back `n`, so the rewritten maximum reads as minimum + 1 |
| Numbers.ParseIntOfToString | client/src/pages/Home.jsx:111 | `parseInt((n).toString())` gives back `n` |
| Home.ApplyFilters | client/src/pages/Home.jsx:109-145 | the result holds exactly the debates that meet every criterion, is no longer than the list, and is the whole list when every debate passes |
| Home.ApplyFiltersAppend | client/src/pages/Home.jsx:109-145 | filtering distributes over concatenation, so the kept debates stay in their original order |
| Home.InRangeInclusive | client/src/pages/Home.jsx:111-124 | with both bounds readable, a duration or participant count passes iff it lies between them, both included |
| Home.EmptyBoundsAdmitAll | client/src/pages/Home.jsx:111-124 | empty bounds impose nothing |
| Home.SelectingNarrows | client/src/pages/Home.jsx:127-142 | selecting options in a mode, format or topic group that had none only removes debates |
| Home.BoundingNarrows | client/src/pages/Home.jsx:111-124 | typing bounds into an empty range only removes debates |
| Home.Narrowing | client/src/pages/Home.jsx:109-145 | filtering by stricter values after looser ones equals filtering by the stricter ones, and is never longer |
| Home.InactiveIsCleared | client/src/pages/Home.jsx:150-154 | the "every applied value is empty" test holds exactly for the cleared values |
| Home.OnApply | client/src/pages/Home.jsx:106-148 | apply stores the values and exactly the debates that pass them |
| Home.DebatesToShow | client/src/pages/Home.jsx:150-155 | with nothing applied the whole list is shown; with an active filter the filtered list is |
| Home.NoActiveFilterKeepsAll | client/src/pages/Home.jsx:150-155 | with no active filter every debate passes |
| Home.ShownAfterApply | client/src/pages/Home.jsx:106-155 | after an apply the page shows exactly the debates that pass, so the all-empty shortcut agrees with the filter |
| CreateDebateForm.InputChange | client/src/components/CreateDebateModal.jsx:19-25 | an input's text replaces exactly the named field; the tags are untouched |
| CreateDebateForm.TagInputChange | client/src/components/CreateDebateModal.jsx:182 | the tag box holds the typed text and the form is unchanged |
| CreateDebateForm.AddTag | client/src/components/CreateDebateModal.jsx:27-35 | a non-blank, unlisted trimmed tag is appended and the input cleared; a blank or duplicate one changes nothing |
| CreateDebateForm.RemoveTag | client/src/components/CreateDebateModal.jsx:37-42 | every copy of the tag goes, exactly the other tags stay, and nothing else in the form changes |
| CreateDebateForm.Submitted | client/src/components/CreateDebateModal.jsx:54-62 | a successful submit resets to 4 participants, 30 minutes, `Voz`, `Libre`, no tags and empty texts; the tag box keeps its text |
| CreateDebateForm.AddTagKeepsTags | client/src/components/CreateDebateModal.jsx:27-34 | adding keeps the tag list duplicate-free and made of non-empty trimmed tags |
| CreateDebateForm.WithoutKeepsDistinct | client/src/components/CreateDebateModal.jsx:40 | the removal filter keeps a duplicate-free list duplicate-free |
| CreateDebateForm.RemoveTagKeepsTags | client/src/components/CreateDebateModal.jsx:37-42 | removing keeps the tag list duplicate-free and trimmed |
| CreateDebateForm.AddThenRemove | client/src/components/CreateDebateModal.jsx:27-42 | adding a new tag and removing it gives back the original form data |
| Locale.Step | client/src/i18n/LocaleProvider.jsx:11 | a falsy accumulator gives `undefined`; a truthy one is indexed by the segment |
| Locale.FoldGetAppend | client/src/i18n/LocaleProvider.jsx:10-12 | following the segments of a + b is following a, then b from where a ended |
| Locale.FalsyStaysUndefined | client/src/i18n/LocaleProvider.jsx:11 | once the lookup meets a falsy value, any further segments give `undefined` |
| Locale.GetDotted | client/src/i18n/LocaleProvider.jsx:10-12 | `get(o, p + "." + q)` equals `get(get(o, p), q)` for every `o`, `p` and `q` |
| Locale.MissingPrefix | client/src/i18n/LocaleProvider.jsx:11 | a path whose prefix is missing is missing |
| Locale.SingleSegment | client/src/i18n/LocaleProvider.jsx:10-12 | a path without a dot is a direct property read of a truthy object |
| Locale.T | client/src/i18n/LocaleProvider.jsx:23 | `t(key)` is never `null` or `undefined`: it is the looked-up value, or the key when that is nullish |
| Locale.Dict | client/src/i18n/LocaleProvider.jsx:22 | the chosen dictionary is the language's when truthy, otherwise the Spanish one |
| Locale.UnknownLanguageFallsBack | client/src/i18n/LocaleProvider.jsx:22-23 | under an unknown language every key translates as in Spanish |
| Locale.InitialLang | client/src/i18n/LocaleProvider.jsx:15 | the starting language is the stored one when non-empty, otherwise `es` |
| DebateCard.AuthorId | client/src/components/DebateCard.jsx:9 | the author id is `author._id`, else `author.id`, else the raw `author` |
| DebateCard.CurrentUserId | client/src/components/DebateCard.jsx:10 | the user id is `_id`, else `id` |
| DebateCard.NoUserIsNotAuthor | client/src/components/DebateCard.jsx:10-13 | without a signed-in user the card never shows its author controls |
| DebateCard.RawAuthor | client/src/components/DebateCard.jsx:9-13 | an unpopulated author id matches exactly the user with that `_id` |
| DebateCard.PopulatedAuthor | client/src/components/DebateCard.jsx:9-13 | a populated author matches a user with the same `_id`, and only that user when the author has no username |
| DebateCard.IdsComparedAsText | client/src/components/DebateCard.jsx:11 | ids are compared by their text, so a numeric id matches its decimal spelling |
| DebateRoom.AcceptsAgreesWithServer | client/src/pages/DebateRoom.jsx:31-35 | for an existing debate that is not closed, the client turns it away exactly when the server's `join_room` refuses its format |
| DebateRoom.OnHistory | client/src/pages/DebateRoom.jsx:50 | the join reply's history replaces the messages only when it is an array |
| DebateRoom.OnMessage | client/src/pages/DebateRoom.jsx:55-57 | an incoming message goes after all existing messages, which are kept |
| DebateRoom.ReceiveAppends | client/src/pages/DebateRoom.jsx:55-57 | a run of incoming messages is appended in arrival order |
| DebateRoom.OnTyping | client/src/pages/DebateRoom.jsx:58-64 | typing adds the user to the set, stopping removes it, other users are unaffected |
| DebateRoom.OnTypingIdempotent | client/src/pages/DebateRoom.jsx:58-64 | a repeated typing report changes nothing further |
| DebateRoom.TypingIndicatorFollowsEvents | client/src/pages/DebateRoom.jsx:135 | the indicator shows after any typing report and clears when the only typist stops |
| DebateRoom.HandleSend | client/src/pages/DebateRoom.jsx:92-100 | blank input sends nothing and keeps the input; otherwise the trimmed text is sent and the input cleared |
| DebateRoom.SentTextPassesContentGuard | client/src/pages/DebateRoom.jsx:93-95 | text the client sends is never refused as invalid by `send_message`, and is stored unchanged |
| DebateRoom.PushAllIsNewestSuffix | server/src/socket.js:121-125 | after any run of accepted messages the server history is the newest min(500, total) of loaded history + messages |
| DebateRoom.ClientEndsWithServerHistory | client/src/pages/DebateRoom.jsx:50-57 | a client that loaded the history and received every later message ends with the server's history as its tail |
| VoiceRoom.VoiceDebatesStayOutOfTextRoom | client/src/pages/VoiceDebateRoom.jsx:44-48 | a debate the voice room opens is refused by the server's text-room join |
| VoiceRoom.InitialParticipants | client/src/pages/VoiceDebateRoom.jsx:77-80 | the list starts with the local row (`'local'`, local), followed by each other user in order marked remote |
| VoiceRoom.InitialDistinct | client/src/pages/VoiceDebateRoom.jsx:77-80 | distinct remote socket ids other than `'local'` give a list with distinct socket ids |
| VoiceRoom.OnUserJoined | client/src/pages/VoiceDebateRoom.jsx:89-92 | a listed socket id changes nothing; an unlisted one is appended as a remote row |
| VoiceRoom.OnUserLeft | client/src/pages/VoiceDebateRoom.jsx:102 | the rows with that socket id go and exactly the others stay |
| VoiceRoom.JoinKeepsDistinct | client/src/pages/VoiceDebateRoom.jsx:89-92 | a join never lists a socket id twice |
| VoiceRoom.LeaveKeepsDistinct | client/src/pages/VoiceDebateRoom.jsx:102 | a leave keeps the socket ids distinct |
| VoiceRoom.LeaveAppend | client/src/pages/VoiceDebateRoom.jsx:102 | the leave filter keeps the remaining rows in order |
| VoiceRoom.JoinThenLeave | client/src/pages/VoiceDebateRoom.jsx:89-102 | a new user who joins and leaves leaves the list as it was |
| VoiceRoom.PeerRegistry.ClosePeerConnection | client/src/pages/VoiceDebateRoom.jsx:252-267 | the socket id leaves the connection, audio and stream maps; every other key and the local stream stay |
| VoiceRoom.PeerRegistry.StopAudio | client/src/pages/VoiceDebateRoom.jsx:297-309 | the local stream is dropped, no connection remains, audio and streams lose exactly the keys that had connections (so all of them when every peer had one) |
| VoiceRoom.IsAuthorById | client/src/pages/VoiceDebateRoom.jsx:348 | for a user with a string `_id`, the test holds iff `author._id` or the raw `author` is that id |
| VoiceRoom.IsAuthorWithoutIds | client/src/pages/VoiceDebateRoom.jsx:348 | as written, a populated author without `_id` and a user without `_id` also pass, since `undefined === undefined` |

## Left out

- Socket.IO transport: `socket.join`, the `io.to().emit` broadcasts, the `system` notifications, `leave_room`, the relay of `typing` and the client's socket singleton. These are network I/O.
- The server side of the voice room's join acknowledgement and its `webrtc_*` handlers: the server in this repository has no handler for those events. The client's handler of the acknowledgement is modelled by `VoiceRoom.InitialParticipants`.
- JWT verification: the `verify` parameter of `SocketServer.Authenticate` stands for it. `decodeURIComponent` is the identity: cookie names and values are taken as already decoded. Its exception on malformed escapes is not modelled.
- Mongo and Mongoose:
  - `findById` is a map lookup and `save` is a map update.
  - A malformed id reads as "not found" rather than a cast error.
  - `populate` is a lookup in a map from user id to username.
  - Timestamps and ObjectIds are plain values.
  - `updateDebate` merges an arbitrary request body into the record; only its guard (`DebateCollection.CheckUpdate`) is modelled.
  - The numeric validators see integers only.
- Concurrency between handlers: each handler runs to completion on the state it reads.
- `Number()` and `parseInt` read decimal integers only. Fractions, exponents, `Infinity` and hexadecimal are not modelled.
- The home page's five hard-coded debates are a parameter of `Home.ApplyFilters`.
- WebRTC and media: `RTCPeerConnection`, `getUserMedia`, audio playback, ICE. `VoiceRoom.PeerRegistry` keeps only the map bookkeeping, with opaque handles. Creating connections and the `ontrack` callback that fills the audio and stream maps are not modelled.
- React rendering and effects: JSX, `alert`, `navigate`, `localStorage` writes, the scroll effect, the 1.2-second typing debounce and loading flags.
- Locale.Step: property reads on strings, numbers and inherited object properties give `undefined` in the model, while JavaScript would read e.g. `length` or a character.
- Js.StrictEquals: two object values are never equal. The client only compares values from separate responses.
- FilterState.HasChanges: compares values structurally, where the source compares JSON texts. The two agree because every updater keeps the key order.
- DebateCard.IdsComparedAsText: covers numeric ids that are integers only.
