# budget-chat room manager in Dafny

budget-chat is a line-based TCP chat room. Every connection gets a session task.
All sessions talk to a single room-manager loop over a channel. That loop owns
the membership table (name to user) and decides what each session receives.
This project models that loop in both versions found in the repository and
proves what each version delivers to whom.

- `src/room.rs`: `room_manager` handles `Join`, `Message` and `Disconnect`. A join is
  admitted only for a valid name that is not yet taken. The joiner gets a sorted list
  of the names already present, and everyone else is told of the arrival. Chat
  lines go out as `"[name] msg"`. A departure is announced, but the entry is kept
  (see below).
- `src/lib.rs`: `process_manager` handles `SetName`, `Message`, `Disconnect` and
  `Announcement`. `SetName` only rejects duplicates; name validity is checked by the
  client in `process_client` before `SetName` is sent. `Disconnect` removes the entry.
  Chat messages are forwarded unformatted and the receiving session formats them.
  The two string helpers `strip_trailing_newline` and `validate_username`, and the
  client's name-admission lines, are modelled as well.

Files:

- `fanout.dfy` (module `Fanout`): delivery handles, per-handle outboxes, and how
  many copies of a broadcast land in a handle.
- `names.dfy` (module `Names`): `validate_username`, the texts the room sends, and
  `Vec::join` with its inverse.
- `listing.dfy` (module `Listing`): the lexicographic order, the sort, and the
  sorted snapshot of a set of names.
- `room.dfy` (module `Room`): `src/room.rs`.
- `lib.dfy` (module `Lib`): `src/lib.rs`.

How the model is built:

- Each manager is a class with two fields. `users` is the membership table, a
  `map`. `outbox` is a `map` from a delivery handle to everything sent into
  that handle so far.
- A session's `Sender` is an abstract `HandleId`. A `send` appends to that
  handle's outbox.
- The loops over the `HashMap` pick each next key by `:|`, so their proofs
  hold for every iteration order.
- Every delivery statement is about one handle. Nothing is said about the order
  between different handles.
- Each `Step` method is proved against two specification functions: `NextUsers`,
  the table after one command, and `Delivered`, what one handle receives during
  that command. `Run` is proved against `UsersAfter` and `DeliveredAll`, which
  fold those two over a sequence of commands.
- The lemmas state what those functions mean for the source's promises: exactly
  one copy to each other member, nothing back to the sender, the snapshot's
  contents, the error paths, and the table invariants over whole runs.
- A broadcast puts into handle `h` one copy per member other than the sender whose
  channel is `h` (`Copies`). Every connection creates its own channel, so members'
  handles are distinct. The "exactly once" lemmas assume this (`DistinctHandles`),
  plus a joiner handle that no member uses. The step methods assume neither.

Where the code and the protocol's intent differ, the model follows the code:

- In `src/room.rs`, `Disconnect` (src/room.rs:68-71) announces the departure but
  never removes the entry. A departure is meant to free the name for reuse; the
  code does not remove it. The model keeps the entry:
  - `Room.RejoinRefused` proves that a later `Join` with the same name is refused.
  - `Room.DepartedStillReceives` proves that the manager still sends to the
    departed member's handle what others say.
- In `src/lib.rs`, `SetName` does not validate the name (`Lib.SetNameSkipsValidation`).
  Validity holds only because every client runs the admission step first
  (`Lib.AdmittedRunKeepsNamesValid`).

## Model

| member | source | states |
|---|---|---|
| Names.IsAsciiAlphanumeric | src/room.rs:22 | `char::is_ascii_alphanumeric`: the character is a digit, an upper-case or a lower-case ASCII letter; src/lib.rs:118 uses the same test |
| Names.ValidUsername | src/room.rs:21-23 | true exactly when the name is non-empty and every character is an ASCII letter or digit; src/lib.rs:117-119 is the same test |
| Names.AllAsciiAlphanumeric | src/room.rs:22 | `chars().all(is_ascii_alphanumeric)`: true exactly when every character is an ASCII letter or digit |
| Names.ContentsText | src/room.rs:51-52 | the contents line is "* The room contains: " followed by the names joined by ", "; src/lib.rs:68 adds "\n" to the same text |
| Names.EnteredText | src/room.rs:57 | the arrival line is "* ", the name, then " has entered the room", so the name can be read back at a fixed place; src/lib.rs:72 adds "\n" |
| Names.LeftText | src/room.rs:69 | the departure line is "* ", the name, then " has left the room"; src/lib.rs:95 adds "\n" |
| Names.ChatText | src/room.rs:65 | a chat line is "[", the sender, "] " and the message unchanged; the session at src/lib.rs:149 writes the same text |
| Names.Join | src/room.rs:52 | `Vec::join`: no parts give "", otherwise the first part starts the result and each further part adds the separator and its own length; src/lib.rs:66 is the same call |
| Names.SplitJoin | src/room.rs:51-52 | valid names contain no comma, so a list of them joined by ", " splits back into exactly that list |
| Names.ContentsRoundTrip | src/room.rs:51-52 | the room-contents line starts with "* The room contains: " and the rest reads back as the listed names |
| Listing.LexLess | src/room.rs:42 | the strict order of `String`s: a proper prefix comes first, and a smaller (larger) first character puts a string before (after) the other |
| Listing.LexLessFirstDifference | src/room.rs:42 | `LexLess(a, b)` holds exactly when `a` is a proper prefix of `b` or, at the first position where they differ, `a` has the smaller character |
| Listing.LexLe | src/room.rs:42 | the `<=` the sort uses: a prefix never comes after its extension, and differing first characters decide |
| Listing.LexLeTotalOrder | src/room.rs:42 | the string order used by the sort is reflexive, antisymmetric, transitive and total |
| Listing.Insert | src/room.rs:42 | inserting into a sorted list gives a sorted list with exactly one more occurrence of the element |
| Listing.InsertionSort | src/room.rs:42 | the sorted list is ordered and is a permutation of the input |
| Listing.SortedListing | src/room.rs:41-42 | the strictly ascending list holding exactly the names of a set |
| Listing.SortedIsListing | src/room.rs:41-42 | any sorted list holding each name of a set once is that set's unique strictly ascending listing, whatever the collection order |
| Listing.CollectNames | src/room.rs:41 | collecting the keys in any iteration order yields each key exactly once |
| Listing.SortedNames | src/lib.rs:63-65 | collecting and sorting the keys gives the ascending listing of the key set, independent of the map's order |
| Fanout.Send | src/room.rs:29 | a send appends the message to that handle's queue and leaves every other handle's queue unchanged |
| Fanout.Repeat | src/room.rs:26-31 | n copies of a message: length n, every element that message |
| Fanout.BroadcastStep | src/room.rs:26-31 | visiting one more member adds one copy to its handle unless it is the sender, and nothing elsewhere |
| Fanout.CopiesOfMember | src/room.rs:26-31 | with distinct handles, a broadcast reaches each member other than the sender exactly once and the sender never |
| Fanout.CopiesOfStranger | src/room.rs:26-31 | a handle no member uses receives nothing from a broadcast |
| Fanout.CopiesIgnoreSender | src/lib.rs:94-97 | rebinding or removing the sender's own entry does not change whom a broadcast from it reaches |
| Fanout.BindFresh | src/room.rs:43-49 | binding a new name to an unused handle keeps members' handles distinct |
| Room.Admits | src/room.rs:40 | the admission test of a `Join`: the name is a valid username and not yet a key of the table |
| Room.NextUsers | src/room.rs:38-72 | the table after one command: an admitted `Join` inserts the joiner, every other command leaves the table as it is; its properties are the contracts of Room.StepKeepsMembers, Room.JoinAccepted, Room.JoinRejected and Room.DisconnectDelivery |
| Room.Delivered | src/room.rs:38-72 | what one handle receives during one command, in order: for an admitted `Join` the contents line if it is the joiner's, then one arrival line per other member using it; a single `Disconnect` to a refused joiner; one chat or departure line per other member using it; its properties are the contracts of Room.JoinAccepted, Room.JoinRejected, Room.MessageDelivery and Room.DisconnectDelivery |
| Room.RoomManager.constructor | src/room.rs:35 | the manager starts with an empty table and nothing sent |
| Room.RoomManager.SendToOthers | src/room.rs:25-32 | each handle gets the message once for every member not named `from` that uses it, and the table is untouched |
| Room.RoomManager.HandleJoin | src/room.rs:39-63 | the table and each handle's queue after a `Join` are those given by `NextUsers` and `Delivered`, on both the accepted and the rejected path |
| Room.RoomManager.Step | src/room.rs:38-72 | one command moves the table to `NextUsers` and appends `Delivered` to each handle, keeping the table well formed |
| Room.RoomManager.Run | src/room.rs:34-74 | processing commands in arrival order yields `UsersAfter` and appends `DeliveredAll` to each handle |
| Room.StepKeepsMembers | src/room.rs:38-72 | every command keeps all keys valid names stored under themselves, never removes or rebinds a member, and only an admitted `Join` adds a key |
| Room.JoinAccepted | src/room.rs:40-58 | an admitted `Join` binds exactly the new name to the joiner's handle; the joiner gets only the contents line, each earlier member gets "* name has entered the room" once, and other handles get nothing |
| Room.JoinSnapshot | src/room.rs:41-54 | the contents line lists the names present before the insert, ascending, without the joiner, and can be read back |
| Room.JoinRejected | src/room.rs:59-62 | a `Join` with an invalid or taken name leaves the table unchanged and sends one `Disconnect` to the joiner's handle only |
| Room.MessageDelivery | src/room.rs:64-67 | "[name] msg" goes once to every member except `name`, even when `name` is not a member, and the table is unchanged |
| Room.DisconnectDelivery | src/room.rs:68-71 | "* name has left the room" goes once to every member except `name`, and the table, with the departing name, is unchanged |
| Room.RunKeepsMembers | src/room.rs:37-73 | over any run the table stays well formed and no member is removed or rebound |
| Room.RejoinRefused | src/room.rs:68-71 | after `Disconnect(name)`, a `Join` with the same name leaves the table unchanged and its session gets only `Disconnect` |
| Room.DepartedStillReceives | src/room.rs:68-71 | after `Disconnect(gone)`, the manager still sends a message from someone else once to `gone`'s handle |
| Lib.StripSuffix | src/lib.rs:112-113 | `str::strip_suffix`: a result exactly when the input ends in the suffix, and then the result followed by the suffix is the input |
| Lib.StripTrailingNewline | src/lib.rs:110-115 | removes one trailing "\r\n" if present, else one trailing "\n", else nothing; the result is a prefix of the input |
| Lib.StripLineEnding | src/lib.rs:110-115 | a line terminated by "\r\n", or by "\n" when it does not end in '\r', strips back to the line |
| Lib.AdmitName | src/lib.rs:127-134 | a name is submitted exactly when the stripped line is a valid username; the submitted name is the line minus at most one terminator |
| Lib.AdmitTypedName | src/lib.rs:127-134 | a valid name typed bare, with "\n" or with "\r\n" is admitted unchanged |
| Lib.ClientLine | src/lib.rs:146-156 | a session writes nothing for `SetName` and text for everything else: "[from] msg" for a chat message, the carried text verbatim for an announcement or a disconnect |
| Lib.NextUsers | src/lib.rs:48-106 | the table after one command: `SetName` inserts a name not yet present, `Disconnect` removes its name, the others leave the table as it is; its properties are the contracts of Lib.StepKeepsEntries, Lib.SetNameTaken, Lib.SetNameAccepted and Lib.DisconnectRemoves |
| Lib.Delivered | src/lib.rs:48-106 | what one handle receives during one command, in order: a single `Disconnect("<name> already exists")` to a duplicate's session; for an accepted `SetName` the contents line if it is the joiner's, then one arrival line per other member using it; one forwarded message or departure line per other member using it; nothing for `Announcement`; its properties are the contracts of Lib.SetNameTaken, Lib.SetNameAccepted, Lib.MessageForwarded, Lib.DisconnectRemoves and Lib.AnnouncementIgnored |
| Lib.Manager.constructor | src/lib.rs:45 | the manager starts with an empty table and nothing sent |
| Lib.Manager.SendToAllExcept | src/lib.rs:73-80 | each handle gets the message once for every member whose key is not `from` that uses it; the same loop appears at src/lib.rs:84-91 and 96-103 |
| Lib.Manager.HandleSetName | src/lib.rs:49-82 | the table and each handle's queue after a `SetName` are those given by `NextUsers` and `Delivered`, on both the duplicate and the accepted path |
| Lib.Manager.HandleDisconnect | src/lib.rs:93-104 | the entry is removed first and the departure announced to the remaining members, as `NextUsers` and `Delivered` give |
| Lib.Manager.Step | src/lib.rs:48-106 | one command moves the table to `NextUsers` and appends `Delivered` to each handle, keeping every entry stored under its name and connected |
| Lib.Manager.Run | src/lib.rs:44-108 | processing commands in arrival order yields `UsersAfter` and appends `DeliveredAll` to each handle |
| Lib.StepKeepsEntries | src/lib.rs:48-106 | no command rebinds an existing member, and only `Disconnect(k)` removes member `k` |
| Lib.SetNameTaken | src/lib.rs:50-52 | a `SetName` for a taken name leaves the table unchanged and sends `Disconnect("<name> already exists")` to the new handle only |
| Lib.SetNameAccepted | src/lib.rs:53-81 | a `SetName` for a free name binds it to the new handle; the joiner gets the contents line of the other names plus "\n" and no announcement, each earlier member gets "* name has entered the room\n" once, and other handles get nothing |
| Lib.SetNameSkipsValidation | src/lib.rs:49-61 | the manager accepts a name that is not a valid username |
| Lib.MessageForwarded | src/lib.rs:83-92 | `Message(from, msg)` is forwarded unchanged once to every member other than `from`, the table is unchanged, and the receiving session writes "[from] msg" |
| Lib.DisconnectRemoves | src/lib.rs:93-104 | `Disconnect` removes the name (no change when absent) and keeps the remaining handles distinct; the departure line goes once to every remaining member, not to the departed handle and not to any handle no member uses, exactly as a broadcast from `from` over the full table would, since the `key != from` test after the removal is redundant; a later `SetName` for the name is accepted |
| Lib.AnnouncementIgnored | src/lib.rs:105 | an `Announcement` sent to the manager changes nothing and sends nothing |
| Lib.AdmittedRunKeepsNamesValid | src/lib.rs:127-139 | when every `SetName` carries a name produced by the admission step, every key stays a valid username over any run |
| Lib.RunKeepsEntries | src/lib.rs:47-107 | over any run entries stay well formed, and a member's entry is unchanged unless the run disconnects that member |
| Lib.RebindOnlyBySetName | src/lib.rs:47-107 | a name absent at the start and present at the end was the subject of some `SetName` in the run |
| Lib.ReconnectAfterLeave | src/lib.rs:93-104 | after a member leaves, a new session can reclaim the name, and its contents line lists the others without it |

## Left out

- `src/connection.rs`: raw socket reads and writes, with no state to model. It is not part of this model.
- `run` (src/lib.rs:23-42): binding the listener, accepting connections and spawning tasks, all I/O.
- The session loop of `process_client` (src/lib.rs:143-169) apart from how it writes each received command (`Lib.ClientLine`): `tokio::select!` and concurrency are not modelled.
- Channel capacity, `.await` back-pressure and ignored send errors: a send is an append to the handle's queue and always succeeds.
- UTF-8 decoding with `unwrap` (src/lib.rs:127, 160) and message framing: names and lines are already strings.
- `debug!` and `println!` logging: no effect on state.
- `HashMap` iteration order: the loops choose keys arbitrarily, and no claim is made about the order across handles.
- Listing.InsertionSort: stands for `Vec::sort` (a stable merge sort). It has the same result, because on strings the sorted permutation is unique; the algorithm itself is not modelled.
- Room.RoomManager.SendToOthers: compares the entry's `name` field, as the source does, while `Copies` counts by key. The two agree because every entry is stored under its own name, which `Valid()` requires.
- Room.JoinAccepted, Room.MessageDelivery, Room.DisconnectDelivery and the corresponding `Lib` lemmas: "exactly once" assumes members use distinct handles and the joiner's handle is new. The source gets this from creating one channel per connection; the `Step` methods do not assume it.
- Lib.AdmittedRunKeepsNamesValid: assumes every `SetName` came from the admission step, as `process_client` sends it; the manager itself does not check it.
- The `connected` flag of lib.rs users is always `true`, and nothing reads it.
