/**
 * The message table and the history query of a private conversation.
 * Timestamps are an abstract integer clock; their text formatting is not modelled.
 */
module Messages {
  import opened Options

  /** A row of the `message` table; `receiver` is None for a public message. */
  datatype Message = Message(id: nat, sender: string, receiver: Option<string>, text: string, timestamp: int)

  /** One element of the JSON list the history route returns. */
  datatype Entry = Entry(sender: string, message: string, time: int)

  /** The auto-increment key: the row appended k-th (from 0) has id k + 1, as nothing is ever deleted. */
  ghost predicate IdsAscending(log: seq<Message>)
  {
    forall k :: 0 <= k < |log| ==> log[k].id == k + 1
  }

  lemma AppendKeepsIds(log: seq<Message>, m: Message)
    requires IdsAscending(log) && m.id == |log| + 1
    ensures IdsAscending(log + [m])
  {
  }

  ghost predicate TimeOrdered(s: seq<Message>)
  {
    forall i, j :: 0 <= i < j < |s| ==> s[i].timestamp <= s[j].timestamp
  }

  /** Ordered by timestamp, and by id among equal timestamps. */
  ghost predicate TimeIdOrdered(s: seq<Message>)
  {
    forall i, j :: 0 <= i < j < |s| ==>
      s[i].timestamp < s[j].timestamp || (s[i].timestamp == s[j].timestamp && s[i].id < s[j].id)
  }

  /**
   * The WHERE clause of the history query:
   * (sender = current AND receiver = username) OR (sender = username AND receiver = current).
   * With no user in the session, `current` is None and SQLAlchemy renders the
   * comparison `== None` as `IS NULL`: the first half matches nothing (sender is NOT NULL) and the
   * second matches the public messages of `username`.
   */
  predicate Between(m: Message, current: Option<string>, username: string)
  {
    (current == Some(m.sender) && m.receiver == Some(username)) ||
    (m.sender == username && m.receiver == current)
  }

  /** The rows the WHERE clause selects, in table order. */
  function Select(log: seq<Message>, current: Option<string>, username: string): (r: seq<Message>)
    ensures forall m :: m in r <==> m in log && Between(m, current, username)
    ensures |r| <= |log|
    decreases |log|
  {
    if |log| == 0 then []
    else
      var last := log[|log| - 1];
      assert forall m :: m in log <==> m in log[..|log| - 1] || m == last by {
        assert log == log[..|log| - 1] + [last];
      }
      Select(log[..|log| - 1], current, username) + if Between(last, current, username) then [last] else []
  }

  lemma TimeOrderedPrefix(s: seq<Message>)
    requires |s| > 0 && TimeOrdered(s)
    ensures TimeOrdered(s[..|s| - 1])
  {
  }

  /** Appending a message no older than the last keeps the order. */
  lemma AppendLatest(s: seq<Message>, m: Message)
    requires TimeOrdered(s)
    requires |s| == 0 || s[|s| - 1].timestamp <= m.timestamp
    ensures TimeOrdered(s + [m])
  {
  }

  /** Every element of a rearrangement of `s`'s front with `m` is no later than `s`'s last element. */
  lemma BelowLast(s: seq<Message>, m: Message, front: seq<Message>)
    requires |s| > 0 && TimeOrdered(s) && m.timestamp < s[|s| - 1].timestamp
    requires multiset(front) == multiset(s[..|s| - 1]) + multiset{m}
    ensures forall k :: 0 <= k < |front| ==> front[k].timestamp <= s[|s| - 1].timestamp
  {
    forall k | 0 <= k < |front| ensures front[k].timestamp <= s[|s| - 1].timestamp {
      assert front[k] in multiset(front);
      if front[k] != m {
        assert front[k] in s[..|s| - 1];
        var i :| 0 <= i < |s| - 1 && s[..|s| - 1][i] == front[k];
        assert s[i] == front[k];
      }
    }
  }

  /**
   * Puts `m` into a timestamp-ordered sequence after every element whose
   * timestamp is not greater than its own, so equal timestamps keep their
   * relative order.
   */
  function InsertByTime(s: seq<Message>, m: Message): (r: seq<Message>)
    requires TimeOrdered(s)
    ensures TimeOrdered(r)
    ensures multiset(r) == multiset(s) + multiset{m}
    decreases |s|
  {
    if |s| == 0 || s[|s| - 1].timestamp <= m.timestamp then
      AppendLatest(s, m);
      s + [m]
    else
      var prefix, last := s[..|s| - 1], s[|s| - 1];
      TimeOrderedPrefix(s);
      var front := InsertByTime(prefix, m);
      BelowLast(s, m, front);
      AppendLatest(front, last);
      assert s == prefix + [last];
      front + [last]
  }

  /** `ORDER BY timestamp`, a stable sort: rows with equal timestamps stay in table order. */
  function SortByTime(s: seq<Message>): (r: seq<Message>)
    ensures TimeOrdered(r)
    ensures multiset(r) == multiset(s)
    decreases |s|
  {
    if |s| == 0 then []
    else
      assert s == s[..|s| - 1] + [s[|s| - 1]];
      InsertByTime(SortByTime(s[..|s| - 1]), s[|s| - 1])
  }

  /**
   * The messages of `private_messages(username)` for the session user
   * `current`: every message exchanged between the two, in either direction,
   * ordered by timestamp.
   */
  function Conversation(log: seq<Message>, current: Option<string>, username: string): (r: seq<Message>)
    ensures TimeOrdered(r)
    ensures forall m :: m in r <==> m in log && Between(m, current, username)
    ensures multiset(r) == multiset(Select(log, current, username))
    ensures current.Some? ==> forall m :: m in r ==>
      m.receiver.Some? &&
      ((m.sender == current.value && m.receiver.value == username) ||
       (m.sender == username && m.receiver.value == current.value))
    ensures current.None? ==> forall m :: m in r <==> m in log && m.sender == username && m.receiver.None?
  {
    var r := SortByTime(Select(log, current, username));
    assert forall m :: m in r <==> m in multiset(Select(log, current, username));
    r
  }

  /** The JSON list the route returns: sender, text and time of each message of the conversation. */
  function History(log: seq<Message>, current: Option<string>, username: string): (r: seq<Entry>)
    ensures var c := Conversation(log, current, username);
      |r| == |c| && forall i :: 0 <= i < |r| ==> r[i] == Entry(c[i].sender, c[i].text, c[i].timestamp)
    ensures forall i, j :: 0 <= i < j < |r| ==> r[i].time <= r[j].time
    ensures current.Some? ==> forall i :: 0 <= i < |r| ==> r[i].sender == current.value || r[i].sender == username
  {
    var c := Conversation(log, current, username);
    assert forall i :: 0 <= i < |c| ==> c[i] in c;
    seq(|c|, i requires 0 <= i < |c| => Entry(c[i].sender, c[i].text, c[i].timestamp))
  }

  ghost predicate IdsIncreasing(s: seq<Message>)
  {
    forall i, j :: 0 <= i < j < |s| ==> s[i].id < s[j].id
  }

  lemma NoLaterThanLast(s: seq<Message>)
    requires |s| > 0 && TimeOrdered(s)
    ensures forall x :: x in s[..|s| - 1] ==> x.timestamp <= s[|s| - 1].timestamp
  {
  }

  /** Sorting what is already in timestamp order changes nothing. */
  lemma {:induction false} SortOfOrdered(s: seq<Message>)
    requires TimeOrdered(s)
    ensures SortByTime(s) == s
    decreases |s|
  {
    if |s| > 0 {
      TimeOrderedPrefix(s);
      SortOfOrdered(s[..|s| - 1]);
    }
  }

  lemma TimeIdOrderedPrefix(s: seq<Message>)
    requires |s| > 0 && TimeIdOrdered(s)
    ensures TimeIdOrdered(s[..|s| - 1])
  {
  }

  /** Appending an element that comes after every element of `s` in (timestamp, id) order keeps the order. */
  lemma AppendKeepsTies(s: seq<Message>, m: Message)
    requires TimeIdOrdered(s)
    requires forall x :: x in s ==> x.timestamp < m.timestamp || (x.timestamp == m.timestamp && x.id < m.id)
    ensures TimeIdOrdered(s + [m])
  {
  }

  lemma InsertMembers(s: seq<Message>, m: Message)
    requires TimeOrdered(s)
    ensures forall x :: x in InsertByTime(s, m) ==> x in s || x == m
  {
  }

  lemma {:induction false} InsertKeepsTies(s: seq<Message>, m: Message)
    requires TimeIdOrdered(s)
    requires forall x :: x in s ==> x.id < m.id
    ensures TimeOrdered(s) && TimeIdOrdered(InsertByTime(s, m))
    decreases |s|
  {
    assert TimeOrdered(s);
    if |s| == 0 || s[|s| - 1].timestamp <= m.timestamp {
      assert forall x :: x in s ==> x.timestamp <= m.timestamp by {
        forall x | x in s ensures x.timestamp <= m.timestamp {
          var k :| 0 <= k < |s| && s[k] == x;
          assert k == |s| - 1 || s[k].timestamp <= s[|s| - 1].timestamp;
        }
      }
      AppendKeepsTies(s, m);
    } else {
      var front := s[..|s| - 1];
      var last := s[|s| - 1];
      TimeIdOrderedPrefix(s);
      assert forall x :: x in front ==> x.id < m.id by {
        assert forall x :: x in front ==> x in s;
      }
      InsertKeepsTies(front, m);
      var f := InsertByTime(front, m);
      assert forall x :: x in f ==> x.timestamp < last.timestamp || (x.timestamp == last.timestamp && x.id < last.id) by {
        InsertMembers(front, m);
        forall x | x in f
          ensures x.timestamp < last.timestamp || (x.timestamp == last.timestamp && x.id < last.id)
        {
          if x != m {
            var k :| 0 <= k < |front| && front[k] == x;
            assert s[k] == x;
          }
        }
      }
      AppendKeepsTies(f, last);
    }
  }

  /** The stable sort of rows in id order breaks timestamp ties by id. */
  lemma {:induction false} SortTiesById(s: seq<Message>)
    requires IdsIncreasing(s)
    ensures TimeIdOrdered(SortByTime(s))
    decreases |s|
  {
    if |s| > 0 {
      var front := s[..|s| - 1];
      SortTiesById(front);
      var sorted := SortByTime(front);
      forall x | x in sorted ensures x.id < s[|s| - 1].id {
        assert x in multiset(front);
      }
      InsertKeepsTies(sorted, s[|s| - 1]);
    }
  }

  lemma IdsPrefix(s: seq<Message>)
    requires |s| > 0 && IdsIncreasing(s)
    ensures IdsIncreasing(s[..|s| - 1])
    ensures forall x :: x in s[..|s| - 1] ==> x.id < s[|s| - 1].id
  {
  }

  lemma AppendHigherId(s: seq<Message>, m: Message)
    requires IdsIncreasing(s)
    requires forall k :: 0 <= k < |s| ==> s[k].id < m.id
    ensures IdsIncreasing(s + [m])
  {
  }

  lemma {:induction false} SelectKeepsIdOrder(log: seq<Message>, current: Option<string>, username: string)
    requires IdsIncreasing(log)
    ensures IdsIncreasing(Select(log, current, username))
    decreases |log|
  {
    if |log| > 0 {
      var front, last := log[..|log| - 1], log[|log| - 1];
      IdsPrefix(log);
      SelectKeepsIdOrder(front, current, username);
      var sel := Select(front, current, username);
      if Between(last, current, username) {
        assert forall k :: 0 <= k < |sel| ==> sel[k].id < last.id by {
          assert forall k :: 0 <= k < |sel| ==> sel[k] in sel;
        }
        AppendHigherId(sel, last);
      }
    }
  }

  lemma {:induction false} SelectKeepsTimeOrder(log: seq<Message>, current: Option<string>, username: string)
    requires TimeOrdered(log)
    ensures TimeOrdered(Select(log, current, username))
    decreases |log|
  {
    if |log| > 0 {
      var front := log[..|log| - 1];
      TimeOrderedPrefix(log);
      SelectKeepsTimeOrder(front, current, username);
      var sel := Select(front, current, username);
      assert forall k :: 0 <= k < |sel| ==> sel[k].timestamp <= log[|log| - 1].timestamp by {
        NoLaterThanLast(log);
        assert forall k :: 0 <= k < |sel| ==> sel[k] in sel;
      }
    }
  }

  /** On a log with ascending ids, the history is ordered by timestamp and then by id. */
  lemma ConversationTiesById(log: seq<Message>, current: Option<string>, username: string)
    requires IdsAscending(log)
    ensures TimeIdOrdered(Conversation(log, current, username))
  {
    SelectKeepsIdOrder(log, current, username);
    SortTiesById(Select(log, current, username));
  }

  /** When the clock never went backwards, the history is the selected rows in the order they were stored. */
  lemma ConversationInLogOrder(log: seq<Message>, current: Option<string>, username: string)
    requires TimeOrdered(log)
    ensures Conversation(log, current, username) == Select(log, current, username)
  {
    SelectKeepsTimeOrder(log, current, username);
    SortOfOrdered(Select(log, current, username));
  }

  lemma {:induction false} SelectSymmetric(log: seq<Message>, a: string, b: string)
    ensures Select(log, Some(a), b) == Select(log, Some(b), a)
    decreases |log|
  {
    if |log| > 0 {
      SelectSymmetric(log[..|log| - 1], a, b);
    }
  }

  /** Either participant asking for the other's history gets the same conversation. */
  lemma ConversationSymmetric(log: seq<Message>, a: string, b: string)
    ensures Conversation(log, Some(a), b) == Conversation(log, Some(b), a)
  {
    SelectSymmetric(log, a, b);
  }

  /**
   * A message stored at a time no earlier than any stored before it ends the
   * history of the pair it was exchanged between, and changes no other history.
   */
  lemma ConversationAfterAppend(log: seq<Message>, m: Message, current: Option<string>, username: string)
    requires forall x :: x in log ==> x.timestamp <= m.timestamp
    ensures Conversation(log + [m], current, username) ==
      if Between(m, current, username) then Conversation(log, current, username) + [m]
      else Conversation(log, current, username)
  {
    var log' := log + [m];
    assert log'[..|log'| - 1] == log;
    var sel := Select(log, current, username);
    if Between(m, current, username) {
      assert Select(log', current, username) == sel + [m];
      SortAppendLatest(sel, m);
    } else {
      assert Select(log', current, username) == sel;
    }
  }

  /** Sorting after adding a row no older than any other puts that row last. */
  lemma SortAppendLatest(s: seq<Message>, m: Message)
    requires forall x :: x in s ==> x.timestamp <= m.timestamp
    ensures SortByTime(s + [m]) == SortByTime(s) + [m]
  {
    assert (s + [m])[..|s|] == s;
    var sorted := SortByTime(s);
    if |sorted| > 0 {
      assert sorted[|sorted| - 1] in multiset(s);
    }
    assert SortByTime(s + [m]) == InsertByTime(sorted, m);
  }

  /** A public message never shows up in the private history of a signed-in user. */
  lemma PublicLeavesPrivateHistory(log: seq<Message>, m: Message, current: string, username: string)
    requires m.receiver.None?
    ensures Conversation(log + [m], Some(current), username) == Conversation(log, Some(current), username)
  {
    var log' := log + [m];
    assert log'[..|log'| - 1] == log;
    assert Select(log', Some(current), username) == Select(log, Some(current), username);
  }

  /**
   * A private message stored no earlier than every message before it ends
   * the history of its pair, as either of the two asks for it.
   */
  lemma PrivateRoundTrip(log: seq<Message>, m: Message)
    requires m.receiver.Some?
    ensures (forall x :: x in log ==> x.timestamp <= m.timestamp) ==>
      Conversation(log + [m], Some(m.sender), m.receiver.value) == Conversation(log, Some(m.sender), m.receiver.value) + [m] &&
      Conversation(log + [m], m.receiver, m.sender) == Conversation(log, m.receiver, m.sender) + [m]
  {
    if forall x :: x in log ==> x.timestamp <= m.timestamp {
      ConversationAfterAppend(log, m, Some(m.sender), m.receiver.value);
      ConversationAfterAppend(log, m, m.receiver, m.sender);
    }
  }
}
