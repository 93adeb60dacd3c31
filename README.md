# sru-messenger chat server core, in Dafny

This project models the logic inside `app.py` of sru-messenger, a Flask / Socket.IO chat server. The model has three parts:

- **Rooms** (`rooms.dfy`). Every private handler (`join_private`, `private_message`, `typing`) names the room of a pair of users with `"-".join(sorted([sender, receiver]))`. `Rooms.Less` is Python's `<` on `str`. `Rooms.Key` is the sort of two names followed by the join. `Rooms.RoomFor` adds the failure path: `sorted` raises a `TypeError` when the session has no user or the event names no peer.
- **Accounts** (`accounts.dfy`). This is the user table: one row per name, holding the stored password hash and the `active` flag. `Find` is `User.query.filter_by(username=...).first()`. `ActiveNames` is the roster that `connect` and `disconnect` broadcast.
- **Messages** (`messages.dfy`). This is the message table and the history query of `/private_messages/<username>`. `Select` is the SQL `WHERE` clause. `SortByTime` is `ORDER BY timestamp`, modelled as a stable insertion sort. `Conversation` is the query. `History` is the JSON list built from it.

`chat.dfy` holds the server state as a class, `Chat.Server`. It has the user table (`users: seq<User>`) and the message table (`log: seq<Message>`), held in memory. The route and event handlers are methods that update this state and return what the handler returns or emits. The Flask `session["user"]` is passed as a parameter `session: Option<string>`. Its new value is returned when a handler changes it. The clock (`datetime.now`) is a parameter `now: int`.

The model follows what the code does, including behaviour a reader might not expect:

- A user may be paired with themself: the room of `A` and `A` is `"A-A"`.
- Names may contain a dash, so two different pairs can share a room. `"a-b"`/`"c"` and `"a"`/`"b-c"` both give `"a-b-c"` (`Rooms.KeyCollidesWithDashes`). For names without a dash, a room determines its pair (`Rooms.KeyDeterminesPair`).
- `connect` does not mark a user active; only `login` does. `connect` only broadcasts the roster.
- `disconnect` and `logout` mark the user inactive with no reference counting. A user with two connections goes inactive when the first one closes.
- Message text is not validated. Empty text is stored like any other.
- `public_message` with no session user fails at the insert, because `sender` is `NOT NULL`, and stores nothing. `private_message` with no session user or no receiver fails in `sorted` and stores nothing.
- `/private_messages/<username>` with no session user compares the columns with `None`, which SQLAlchemy compiles to `IS NULL` (a plain SQL `= NULL` would match nothing). The query then returns the public messages that `username` sent (`Messages.Conversation`, last ensures).
- The history is sorted by the stored timestamp. The model does not assume a monotone clock. When the clock did not go backwards, the sort leaves the selected rows in table order (`Messages.ConversationInLogOrder`).

## Model

| member | source | states |
|---|---|---|
| `Rooms.LessIrreflexive` | app.py:128 | no name sorts strictly before itself |
| `Rooms.LessAsymmetric` | app.py:128 | two names are never each `<` the other |
| `Rooms.LessTrichotomy` | app.py:128 | two names are equal or ordered one way or the other, so `sorted` of a pair is determined |
| `Rooms.Key` | app.py:128 | the room is one name, a dash, and the other name; its length is the sum of both plus one |
| `Rooms.KeyIsMinDashMax` | app.py:128 | the room is the smaller name under Python's string order, then `-`, then the larger |
| `Rooms.KeySymmetric` | app.py:148 | sender and receiver compute the same room, so `private_message` reaches the room both joined |
| `Rooms.KeyOfSamePair` | app.py:128 | pairing a user with themself is not rejected: the room is the name, `-`, the name |
| `Rooms.SplitAtDash` | app.py:128 | a joined room splits back into its two halves when neither left half has a dash |
| `Rooms.KeyDeterminesPair` | app.py:128 | for names without a dash, equal rooms mean the same unordered pair |
| `Rooms.KeyCollidesWithDashes` | app.py:128 | with dashes in names, the pairs ("a-b","c") and ("a","b-c") share the room "a-b-c" |
| `Rooms.RoomFor` | app.py:124-129 | a room exists exactly when both the session user and the peer are present (otherwise `sorted` raises), and it is their `Key` |
| `Rooms.RoomForSymmetric` | app.py:124-129 | the room computed by one side equals the room computed by the other, so `join_private` (124-129), `private_message` (146-148) and `typing` (163-165) from either side address one room |
| `Accounts.Find` | app.py:46 | returns the first row with the name, or nothing exactly when no row has it |
| `Accounts.ActiveNames` | app.py:111 | a name is in the roster exactly when some user with that name is active |
| `Accounts.ActiveNamesDistinct` | app.py:121 | with unique usernames, no name appears twice in the roster |
| `Accounts.SetActive` | app.py:119 | only the chosen row's flag changes; its name and password stay |
| `Accounts.RosterAfterSetActive` | app.py:117-121 | after one user's flag is set, that name is in the roster exactly when the flag is true, every other name's presence is unchanged, and names stay unique |
| `Messages.AppendKeepsIds` | app.py:30 | a row appended with the next id keeps the ids 1, 2, 3, … in table order |
| `Messages.Select` | app.py:94-96 | a row is selected exactly when it is in the table and passes the WHERE clause |
| `Messages.InsertByTime` | app.py:97 | inserting into a timestamp-ordered list keeps it ordered and adds exactly that message |
| `Messages.SortByTime` | app.py:97 | the sort's result is timestamp-ordered and a permutation of its input |
| `Messages.Conversation` | app.py:94-97 | the history holds exactly the messages between the two users in either direction, in timestamp order, and never a public message or a third party's message; with no session user it holds exactly `username`'s public messages |
| `Messages.History` | app.py:99-105 | entry i carries the sender, text and time of the i-th message of the conversation, so times are non-decreasing and each sender is one of the two users |
| `Messages.SortOfOrdered` | app.py:97 | sorting an already timestamp-ordered list leaves it unchanged |
| `Messages.AppendKeepsTies` | app.py:97 | appending a message later in (timestamp, id) order than all others keeps that order |
| `Messages.InsertKeepsTies` | app.py:97 | inserting a message with a higher id than all others keeps (timestamp, id) order |
| `Messages.SortTiesById` | app.py:97 | rows in id order come out of the sort ordered by timestamp, and by id among equal timestamps |
| `Messages.SelectKeepsIdOrder` | app.py:94-96 | the WHERE clause keeps rows in increasing id order |
| `Messages.SelectKeepsTimeOrder` | app.py:94-96 | the WHERE clause keeps a timestamp-ordered table ordered |
| `Messages.ConversationTiesById` | app.py:94-97 | on a table with ascending ids, the history is ordered by timestamp, then id |
| `Messages.ConversationInLogOrder` | app.py:94-97 | if the clock never went backwards, the history is the selected rows in the order they were stored |
| `Messages.SelectSymmetric` | app.py:95-96 | the WHERE clause selects the same rows for (A, B) and (B, A) |
| `Messages.ConversationSymmetric` | app.py:94-97 | A asking for B's history and B asking for A's give the same messages |
| `Messages.ConversationAfterAppend` | app.py:150-152 | a message stored no earlier than every other becomes the last entry of its pair's history, and no other history changes |
| `Messages.SortAppendLatest` | app.py:97 | a message no older than all others is placed last by the sort |
| `Messages.PublicLeavesPrivateHistory` | app.py:134-136 | a public message changes no signed-in user's private history |
| `Messages.PrivateRoundTrip` | app.py:150-152 | with a forward clock, a private message ends both the sender's and the receiver's history of the pair |
| `Chat.Server.constructor` | app.py:36-37 | on a fresh database file the tables start empty |
| `Chat.Server.Register` | app.py:62-69 | a taken name returns "Username already exists" and changes nothing; otherwise exactly one inactive user with that name and hash is appended and the roster is unchanged |
| `Chat.Server.Login` | app.py:46-52 | on a name match accepted by the password check, that user becomes active, joins the roster and is stored in the session, and no other user changes; otherwise nothing changes and "Invalid username or password" is returned |
| `Chat.Server.MarkInactive` | app.py:84-87 | the session user's row, if any, goes inactive and leaves the roster; every other user is unchanged |
| `Chat.Server.Logout` | app.py:81-89 | as `MarkInactive`, and the session is cleared |
| `Chat.Server.Connect` | app.py:108-112 | with a session user, the broadcast roster holds exactly the active names, each once; without one, nothing is emitted; the tables do not change |
| `Chat.Server.Disconnect` | app.py:114-122 | the session user goes inactive; the broadcast roster excludes that user, holds every other previously active name, and lists each name once |
| `Chat.Server.PublicMessage` | app.py:131-142 | exactly one message with no receiver and the next id is appended at the end of the table and returned; no signed-in user's private history changes; without a session user nothing is stored |
| `Chat.Server.PrivateMessage` | app.py:144-159 | exactly one message with the given receiver is appended and addressed to the pair's room; with a forward clock it ends both participants' history; without a sender or receiver nothing is stored |

## Left out

- HTTP plumbing: Flask routing, redirects, `render_template`, the `/chat` page and the JSON response wrapping. The handlers return the values the routes would wrap.
- Password hashing: `generate_password_hash` and `check_password_hash` belong to werkzeug. `Register` takes the already-hashed password. `Login` takes the check as a function parameter.
- Persistence mechanics: SQLAlchemy sessions, `commit`, `create_all`, the SQLite file, and rollback after a failed commit. The tables are held in memory, and a failed insert stores nothing.
- Socket.IO transport: `emit`, `send`, `join_room`, broadcast fan-out and eventlet. Handlers return the payload and the room they target. Room membership of a connection is not tracked. `typing` only computes its room (`Rooms.RoomFor`).
- Timestamps: `datetime.now` becomes the `now` parameter. The `strftime` formatting is left out, and `History` carries the integer time.
- The `String(50)`/`String(500)` column lengths are not modelled, because no code checks them.
- The user table's integer primary key is not modelled, because no handler reads it.
- A missing `receiver` or `message` key in an event (Python `KeyError`), and a `None` text, are not modelled. Text is always a string; a JSON `null` receiver is modelled as `None`.
- Concurrency: each handler is one atomic step on the shared tables.
- Restarts: `db.create_all()` keeps an existing database file, with its users, messages and `active` flags (including users left active by a process that stopped before `disconnect`). `Chat.Server.constructor` models a fresh file only.
- `Messages.SortByTime`: SQL leaves the order of rows with equal timestamps unspecified. The model keeps them in table order, which is id order.
