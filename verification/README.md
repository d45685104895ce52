# Presence and message routing of a WebSocket chat server

This project models the real-time core of a small direct-messaging backend written in
JavaScript (Express, `ws`, Mongoose). When a WebSocket connection opens, the server
reads a session token from the `Cookie` header and, once the token is verified, sets the
user's `userId` and `username` on the connection object. Each time a connection opens or
closes, every open connection is sent the online roster `{online: [{userId, username}, ...]}`.
An incoming envelope `{receiver, text, file}` may do three things. An attachment is
written under a key `<Date.now()>.<extension>`. A message record is persisted. The record
is then pushed to every open connection bound to the receiver. The history endpoint
returns the messages exchanged between two users, sorted by creation time.

Modules, one per component:

- `Text` (text.dfy): JavaScript `split` with a one-character separator, its inverse
  `join`, `startsWith`, and the decimal rendering of a number. It also proves that
  `split` and `join` are inverses.
- `Cookie` (cookie.dfy): token extraction from the `Cookie` header.
- `Attachment` (attachment.dfy): file extension, storage key and the data-URI payload
  segment.
- `Envelope` (envelope.dfy): what one envelope writes and persists (`Process`), and the
  delivery payload.
- `Presence` (presence.dfy): connection records, roster, receiver filter and the
  `Registry` class holding `wss.clients`. Its methods are `Open`, `Bind`, `Evict`,
  `Broadcast` and `Route`.
- `History` (history.dfy): the conversation filter and the sort by `createdAt`.

Things the model abstracts:

- Token verification is a function parameter `verify: string -> Option<Identity>`. A
  failed verification leaves the connection unbound.
- `Date.now()` is the parameter `now`.
- The database id of a new message is the parameter `messageId`.
- Each connection object is an opaque handle `ConnId`, handed out by the registry.
- Sends, file writes and persisted records are returned as values.

Behaviour the model keeps as the code has it:

- The roster lists every connection in the set, including unbound ones with absent
  fields (index.js:183).
- A message from an unbound connection is persisted with an absent sender (index.js:210).
- A file name without a dot gives the whole name as the key's suffix (index.js:195-198).
- The attachment is written before the acceptance test (index.js:194-208). A file sent
  without a receiver is still written.
- The token check calls back before `jwt.verify` returns (with a string secret the
  `jsonwebtoken` library does not defer it), so lines 175-176 run before the roster
  broadcast at line 181. The roster sent when a connection opens already shows that
  connection's identity (`Presence.Registry.Open`).

## Model

| member | source | states |
|---|---|---|
| Text.Split | index.js:168 | `split` gives at least one piece; no piece contains the separator; there is more than one piece exactly when the separator occurs |
| Text.JoinSplit | index.js:168 | joining the pieces of `split` with the separator gives back the input |
| Text.SplitJoin | index.js:168 | splitting a join of separator-free pieces gives back those pieces |
| Text.SplitHead | index.js:170 | the first piece of a split is a prefix of the input, followed by the separator or by the end |
| Text.Decimal | index.js:198 | the rendering of `Date.now()` is a non-empty string of decimal digits, with no leading zero unless it is `0` |
| Text.DecimalRoundTrip | index.js:198 | reading the decimal rendering back gives the timestamp |
| Cookie.FirstTokenSegment | index.js:168 | `find` yields the first segment starting with `token=`, and nothing exactly when no segment does |
| Cookie.FirstTokenSegmentUnique | index.js:168 | only one segment can be the first one starting with `token=` |
| Cookie.ValueOf | index.js:170 | `split('=')[1]` of a `token=` segment is the text after `token=` up to the next `=` or the end, and contains no `=` |
| Cookie.ValueOfExact | index.js:170 | a segment `token=<v>` followed by nothing or by `=` has value exactly `v` |
| Cookie.ValueOfEmpty | index.js:170-171 | a segment `token=` followed by nothing or by `=` has the empty value |
| Cookie.TokenIn | index.js:168-171 | the token is exactly the value of the first `token=` segment when that value is non-empty, and nothing when it is empty; with no such segment there is none; a token has no `;` or `=` |
| Cookie.ExtractToken | index.js:166-171 | an absent or empty header gives no token; otherwise the token is exactly the value of the first segment starting with `token=`, and nothing when that value is empty or no segment qualifies |
| Cookie.ExtractFromSegments | index.js:166-171 | a header glued from `;`-free segments yields the value of its first `token=` segment, or nothing if that value is empty |
| Cookie.GluedSegments | index.js:168 | gluing `before`, a `token=` segment and `after` makes that segment the first `token=` segment |
| Cookie.FoundAfter | index.js:166-171 | the token of such a glued header is the value of the middle segment |
| Cookie.TokenFound | index.js:166-171 | completeness: a header whose first `token=` segment holds a non-empty value `v` yields `v`, wherever that segment stands |
| Cookie.SpaceBeforeTokenHidesIt | index.js:168 | `a=1; token=x` yields no token, because the second segment starts with a space |
| Cookie.EmptyValueGivesNoToken | index.js:170-171 | an empty value in the first `token=` segment gives no token, even if a later segment carries one |
| Attachment.Extension | index.js:195-196 | the extension contains no `.` |
| Attachment.ExtensionIsSuffix | index.js:195-196 | the extension is the tail of the name, preceded by `.` unless it is the whole name |
| Attachment.ExtensionAfterLastDot | index.js:195-196 | `base.ext` with a dot-free `ext` has extension `ext`, whatever `base` is |
| Attachment.ExtensionOfDotlessName | index.js:195-196 | a name without a dot is its own extension (`README` gives `README`) |
| Attachment.PhotoExtension | index.js:195-196 | `photo.jpg` has extension `jpg` |
| Attachment.AttachmentKey | index.js:198 | the key splits on `.` into exactly the decimal timestamp and the extension, and the first field denotes the timestamp |
| Attachment.FileContent | index.js:201 | the stored content has no comma; there is content exactly when the data contains a comma |
| Attachment.DataUriPayload | index.js:201 | for data `<header>,<payload>[,...]` the stored content is `payload` |
| Envelope.Process | index.js:193-214 | a file with a payload is written under `<now>.<ext>` whether or not the envelope is accepted; a record exists iff `receiver` is truthy, `text` is non-empty or a file is sent, and the write did not throw; it copies sender, receiver and text, and names the key iff a file was sent |
| Envelope.DeliveryOf | index.js:218-224 | the delivery carries the record's text, sender, receiver and file, and the database id |
| Envelope.TextOnlyPersisted | index.js:208-214 | a text-only envelope to a receiver is persisted with a null file and writes nothing |
| Envelope.FileOnlyPersisted | index.js:194-214 | a file-only envelope to a receiver is written and persisted under the same generated key |
| Envelope.EmptyEnvelopeDropped | index.js:208 | an envelope with neither text nor file has no effect, whatever its receiver |
| Envelope.FileWithoutReceiverWrittenOnly | index.js:194-208 | a file sent without a receiver is written but nothing is persisted |
| Presence.Roster | index.js:183 | one entry per connection, in set order, each with that connection's userId and username (absent when unbound) |
| Presence.Recipients | index.js:216-217 | the receiving handles are exactly those of the connections bound to the receiver |
| Presence.SenderOf | index.js:210 | the sender is the bound userId of the sending connection, absent when it was never bound |
| Presence.Bound | index.js:175-176 | binding changes the identity of connection `id` only and keeps the order |
| Presence.Without | index.js:227-233 | a close never grows the set |
| Presence.IdentityFor | index.js:166-177 | an absent or empty header, or one without a usable token, gives no identity; an identity is always what the verifier yields for a non-empty token found in the header |
| Presence.TokenIsVerified | index.js:166-177 | a header whose first `token=` segment holds a non-empty value is verified with exactly that value, wherever the segment stands |
| Presence.SoleTokenIsVerified | index.js:166-177 | the header `token=<v>` is verified with `v` |
| Presence.EmptyTokenLeavesUnbound | index.js:170-177 | an empty value in the first `token=` segment skips verification and leaves the connection unbound, whatever later segments hold |
| Presence.SpacedCookieLeavesUnbound | index.js:168-177 | the header `a=1; token=x` leaves the connection unbound, whatever the verifier would say |
| Presence.BindNewest | index.js:174-176 | binding the newest connection sets the identity on it and changes no other connection |
| Presence.WithoutMembers | index.js:227-233 | after a close the set holds exactly the connections other than the closed one |
| Presence.WithoutKeepsUnique | index.js:227-233 | removing a connection keeps every remaining connection in the set once |
| Presence.WithoutRemovesOne | index.js:227-233 | closing a registered connection removes exactly its entry and keeps the order of the rest |
| Presence.WithoutAbsent | index.js:227-233 | removing a connection that is not in the set changes nothing |
| Presence.RecipientIffBound | index.js:216-217 | a connection receives a message iff it is bound to the receiver: unbound connections never do, nor do the sender's other connections unless sender and receiver coincide |
| Presence.OfflineReceiverGetsNothing | index.js:216-224 | a receiver with no bound connection gets zero sends |
| Presence.RecipientsDistinct | index.js:216-224 | no connection is sent the same message twice |
| Presence.RecipientsInSetOrder | index.js:216-224 | of two connections bound to the receiver, the one earlier in the set is sent the message first |
| Presence.BindRoutes | index.js:175-176 | a bound connection receives exactly the messages to its user, and no other connection's routing changes |
| Presence.EvictRoutes | index.js:227-233 | a closed connection receives nothing, and every other connection's routing is unchanged |
| Presence.Registry.constructor | index.js:142 | the server starts with no connections |
| Presence.Registry.Broadcast | index.js:181-185 | every connection, bound or not, is sent the same roster of the whole set, in set order |
| Presence.Registry.Open | index.js:144-185 | a new connection joins the set under an unused handle, bound to the identity its `Cookie` header verifies to (unbound without one), and then every connection is sent the roster including it |
| Presence.Registry.Bind | index.js:172-177 | a verified identity is set on the connection; without one nothing changes |
| Presence.Registry.Evict | index.js:227-234 | the closed connection leaves the set and every remaining connection is sent the roster without it |
| Presence.Registry.Route | index.js:188-225 | the write and record are those of `Process` for the sender's bound user; nothing is sent without a record; otherwise each connection bound to the receiver, in set order, is sent one identical delivery with the record's id |
| History.Conversation | index.js:49-51 | a stored message is selected iff its sender and its receiver are both among the two users, and each selected message occurs as often as it is stored |
| History.Insert | index.js:52 | inserting into a sorted list keeps it sorted and adds exactly the one message |
| History.SortByTime | index.js:52 | the result is ascending by `createdAt` and a permutation of the input |
| History.Messages | index.js:49-53 | the history is ascending by `createdAt`, has each matching message as often as it is stored, and contains a message iff it is stored and between the two users |
| History.ConversationSymmetric | index.js:49-51 | swapping the two users selects the same messages |
| History.MessagesSymmetric | index.js:49-53 | both users get the same history |
| History.ThirdUserExcluded | index.js:49-51 | a message sent by or to a third user is never returned |
| History.InsertOldest | index.js:52 | a message no newer than all others is inserted first |
| History.SortKeepsSorted | index.js:52 | messages already in creation order come back unchanged |

## Left out

- The HTTP routes for test, people, logout, profile, login and register (index.js:40-43, 61-135) are left out. They are password hashing, token signing and database CRUD.
- The authentication gate of the history route (index.js:46-48, 55-58) is left out. The caller's id `ourId` is a parameter.
- Token verification (index.js:172) is a function parameter. Its failure branch (index.js:173) uses an undefined `res` and then destructures `undefined`, which crashes the process; the model instead leaves the connection unbound.
- Errors thrown inside callbacks (index.js:30, 99, 124, 132, 202) crash the process and are not modelled.
- Database and disk I/O are replaced by returned values (the record, the key and the content). Base64 decoding of the written content is not modelled.
- Asynchrony is not modelled: the verification callback, `await Message.create` and the sends run in one fixed order. The callback of line 172 runs inside `Open`, before the broadcast, as `jsonwebtoken` does with a string secret.
- `Date.now()` and the database id `_id` are parameters. The `createdAt` stamps of stored messages are given, not generated.
- The heartbeat (index.js:147-163) is commented out in the source and not modelled.
- `JSON.parse` of the incoming frame (index.js:189) is not modelled. Envelope fields are treated as strings when present, because the model does not cover numbers or objects in `receiver`, `text` or `file.name`.
- `connection.terminate()` and the logging calls have no effect on the modelled state. The `ws` library removes a closed connection from `wss.clients` before the close handler runs, so `Evict` removes first and then broadcasts.
- Send failures on individual connections are not modelled. Every listed send is assumed to be attempted.
- Envelope.Process: when `file.data` contains no comma, `file.data.split(',')[1]` is `undefined` and `fs.writeFile` throws at index.js:201. The throw rejects the promise of the `async` message handler, which nothing handles: current Node versions then end the process, and versions before 14 wrote the text `undefined` instead. The model does not cover either outcome. It treats that envelope as having no effect (`Envelope.WriteThrows`), with no write, no record and no sends.
- History.SortByTime: puts messages with equal `createdAt` in storage order. The database leaves their order unspecified, so this is one of the orders the source allows.
