/**
 * The chat server's state and handlers: the user table behind the login,
 * register and logout routes and the connect/disconnect events, and the
 * message table the public and private message events append to. The
 * database is held in memory; what the handlers emit is returned.
 */
module Chat {
  import opened Options
  import opened Accounts
  import opened Messages
  import Rooms

  const UsernameTaken := "Username already exists"
  const InvalidCredentials := "Invalid username or password"

  /** What private_message emits: the stored message, addressed to the room of the pair. */
  datatype Delivery = Delivery(room: string, message: Message)

  class Server {
    var users: seq<User>
    var log: seq<Message>

    ghost predicate Valid()
      reads this
    {
      UniqueNames(users) && IdsAscending(log)
    }

    constructor ()
      ensures Valid() && users == [] && log == []
    {
      users := [];
      log := [];
    }

    /** register: a name already in the table is refused; otherwise one inactive user is added. */
    method Register(name: string, hashed: string) returns (err: Option<string>)
      requires Valid()
      modifies this
      ensures Valid() && log == old(log)
      ensures HasUser(old(users), name) ==> err == Some(UsernameTaken) && users == old(users)
      ensures !HasUser(old(users), name) ==> err == None && users == old(users) + [User(name, hashed, false)]
      ensures HasUser(users, name) && ActiveNames(users) == ActiveNames(old(users))
    {
      if Find(users, name).Some? {
        err := Some(UsernameTaken);
      } else {
        var added := users + [User(name, hashed, false)];
        assert added[..|users|] == users;
        assert HasUser(added, name) by { assert added[|users|].username == name; }
        users := added;
        err := None;
      }
    }

    /**
     * login: on a matching name whose stored hash `check` accepts, the user
     * is marked active and the session remembers the name; otherwise nothing
     * changes and the error text is returned.
     */
    method Login(session: Option<string>, name: string, password: string, check: (string, string) -> bool)
      returns (session': Option<string>, err: Option<string>)
      requires Valid()
      modifies this
      ensures Valid() && log == old(log)
      ensures var f := Find(old(users), name);
        if f.Some? && check(old(users)[f.value].password, password) then
          session' == Some(name) && err == None && users == SetActive(old(users), f.value, true)
        else
          session' == session && err == Some(InvalidCredentials) && users == old(users)
      ensures err.None? ==> name in ActiveNames(users)
      ensures forall x :: x != name ==> (x in ActiveNames(users) <==> x in ActiveNames(old(users)))
    {
      var f := Find(users, name);
      if f.Some? && check(users[f.value].password, password) {
        RosterAfterSetActive(users, f.value, true);
        users := SetActive(users, f.value, true);
        session', err := Some(name), None;
      } else {
        session', err := session, Some(InvalidCredentials);
      }
    }

    /** `u.active = False` for the session's user, as logout and disconnect both do. */
    method MarkInactive(session: Option<string>)
      requires Valid()
      modifies this
      ensures Valid() && log == old(log)
      ensures session.Some? && Find(old(users), session.value).Some? ==>
        users == SetActive(old(users), Find(old(users), session.value).value, false)
      ensures session.None? || Find(old(users), session.value).None? ==> users == old(users)
      ensures session.Some? ==> session.value !in ActiveNames(users)
      ensures forall x :: session != Some(x) ==> (x in ActiveNames(users) <==> x in ActiveNames(old(users)))
    {
      if session.Some? {
        var f := Find(users, session.value);
        if f.Some? {
          RosterAfterSetActive(users, f.value, false);
          users := SetActive(users, f.value, false);
        }
      }
    }

    /** logout: the session's user goes inactive and the session is cleared. */
    method Logout(session: Option<string>) returns (session': Option<string>)
      requires Valid()
      modifies this
      ensures Valid() && log == old(log)
      ensures session.Some? && Find(old(users), session.value).Some? ==>
        users == SetActive(old(users), Find(old(users), session.value).value, false)
      ensures session.None? || Find(old(users), session.value).None? ==> users == old(users)
      ensures session.Some? ==> session.value !in ActiveNames(users)
      ensures forall x :: session != Some(x) ==> (x in ActiveNames(users) <==> x in ActiveNames(old(users)))
      ensures session' == None
    {
      MarkInactive(session);
      session' := None;
    }

    /**
     * connect: a connection with a session user gets the roster broadcast,
     * every active name once; the table is not changed (login already marked
     * the user active).
     */
    method Connect(session: Option<string>) returns (broadcast: Option<seq<string>>)
      requires Valid()
      ensures broadcast.Some? <==> session.Some?
      ensures broadcast.Some? ==> forall x :: x in broadcast.value <==> IsActive(users, x)
      ensures broadcast.Some? ==> forall i, j :: 0 <= i < j < |broadcast.value| ==> broadcast.value[i] != broadcast.value[j]
    {
      if session.Some? {
        ActiveNamesDistinct(users);
        broadcast := Some(ActiveNames(users));
      } else {
        broadcast := None;
      }
    }

    /** disconnect: the session's user goes inactive and the remaining roster is broadcast. */
    method Disconnect(session: Option<string>) returns (broadcast: Option<seq<string>>)
      requires Valid()
      modifies this
      ensures Valid() && log == old(log)
      ensures session.Some? && Find(old(users), session.value).Some? ==>
        users == SetActive(old(users), Find(old(users), session.value).value, false)
      ensures session.None? || Find(old(users), session.value).None? ==> users == old(users)
      ensures broadcast.Some? <==> session.Some?
      ensures broadcast.Some? ==> session.value !in broadcast.value
      ensures broadcast.Some? ==> forall x :: x != session.value ==> (x in broadcast.value <==> x in ActiveNames(old(users)))
      ensures broadcast.Some? ==> forall i, j :: 0 <= i < j < |broadcast.value| ==> broadcast.value[i] != broadcast.value[j]
    {
      MarkInactive(session);
      if session.Some? {
        ActiveNamesDistinct(users);
        broadcast := Some(ActiveNames(users));
      } else {
        broadcast := None;
      }
    }

    /**
     * message: the text is stored as a public message (no receiver) at the
     * end of the table. Without a session user the NOT NULL sender makes
     * the insert fail and nothing is stored or broadcast.
     */
    method PublicMessage(session: Option<string>, text: string, now: int) returns (sent: Option<Message>)
      requires Valid()
      modifies this
      ensures Valid() && users == old(users)
      ensures sent.Some? <==> session.Some?
      ensures sent.None? ==> log == old(log)
      ensures sent.Some? ==> sent.value == Message(|old(log)| + 1, session.value, None, text, now)
      ensures sent.Some? ==> log == old(log) + [sent.value]
      ensures forall c, u :: Conversation(log, Some(c), u) == Conversation(old(log), Some(c), u)
    {
      if session.Some? {
        var m := Message(|log| + 1, session.value, None, text, now);
        forall c, u ensures Conversation(log + [m], Some(c), u) == Conversation(log, Some(c), u) {
          PublicLeavesPrivateHistory(log, m, c, u);
        }
        AppendKeepsIds(log, m);
        log := log + [m];
        sent := Some(m);
      } else {
        sent := None;
      }
    }

    /**
     * private_message: the text is stored with its receiver at the end of
     * the table and addressed to the room of the pair. With no session user
     * or no receiver, computing the room fails and nothing is stored.
     */
    method PrivateMessage(session: Option<string>, receiver: Option<string>, text: string, now: int)
      returns (sent: Option<Delivery>)
      requires Valid()
      modifies this
      ensures Valid() && users == old(users)
      ensures sent.Some? <==> session.Some? && receiver.Some?
      ensures sent.None? ==> log == old(log)
      ensures sent.Some? ==> sent.value.room == Rooms.Key(session.value, receiver.value)
      ensures sent.Some? ==> sent.value.message == Message(|old(log)| + 1, session.value, receiver, text, now)
      ensures sent.Some? ==> log == old(log) + [sent.value.message]
      ensures sent.Some? && (forall x :: x in old(log) ==> x.timestamp <= now) ==>
        Conversation(log, session, receiver.value) == Conversation(old(log), session, receiver.value) + [sent.value.message] &&
        Conversation(log, receiver, session.value) == Conversation(old(log), receiver, session.value) + [sent.value.message]
    {
      var room := Rooms.RoomFor(session, receiver);
      if room.Some? {
        var m := Message(|log| + 1, session.value, receiver, text, now);
        AppendKeepsIds(log, m);
        PrivateRoundTrip(log, m);
        log := log + [m];
        sent := Some(Delivery(room.value, m));
      } else {
        sent := None;
      }
    }
  }

  /**
   * Two users told through the contracts alone: A and B register, A logs
   * in and sends B a private message, which lands in the room B computes
   * for A and is all of B's history with A; when A disconnects, A leaves the roster.
   */
  method TwoUserSession(hashA: string, hashB: string)
  {
    var server := new Server();
    var err := server.Register("A", hashA);
    assert server.users == [User("A", hashA, false)];
    assert !HasUser(server.users, "B");
    err := server.Register("B", hashB);

    var sessionA, errA := server.Login(None, "A", "pw", (stored: string, given: string) => true);
    var sent := server.PrivateMessage(sessionA, Some("B"), "secret", 1);
    Rooms.KeySymmetric("A", "B");
    assert Rooms.RoomFor(Some("B"), Some("A")) == Some(sent.value.room);
    assert Conversation([], Some("B"), "A") == [];
    assert Conversation(server.log, Some("B"), "A") == [sent.value.message];

    var roster := server.Disconnect(sessionA);
    assert roster.Some? && "A" !in roster.value;
  }
}
