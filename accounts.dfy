/**
 * The user table: one row per registered name, holding the stored password
 * hash and whether the user is currently marked active (online).
 */
module Accounts {
  import opened Options

  /** A row of the `user` table; the integer primary key is not needed by any handler. */
  datatype User = User(username: string, password: string, active: bool)

  /** The `unique=True` constraint on `username`. */
  ghost predicate UniqueNames(users: seq<User>)
  {
    forall i, j :: 0 <= i < j < |users| ==> users[i].username != users[j].username
  }

  ghost predicate HasUser(users: seq<User>, name: string)
  {
    exists i :: 0 <= i < |users| && users[i].username == name
  }

  ghost predicate IsActive(users: seq<User>, name: string)
  {
    exists i :: 0 <= i < |users| && users[i].username == name && users[i].active
  }

  /** `User.query.filter_by(username=name).first()`: the position of the first row with that name. */
  function Find(users: seq<User>, name: string): (r: Option<nat>)
    ensures r.Some? ==> r.value < |users| && users[r.value].username == name
    ensures r.Some? ==> forall k :: 0 <= k < r.value ==> users[k].username != name
    ensures r.None? <==> forall k :: 0 <= k < |users| ==> users[k].username != name
    decreases |users|
  {
    if |users| == 0 then None
    else if users[0].username == name then Some(0)
    else match Find(users[1..], name)
      case None => None
      case Some(i) => Some(i + 1)
  }

  /** `[u.username for u in User.query.filter_by(active=True)]`, in table order. */
  function ActiveNames(users: seq<User>): (r: seq<string>)
    ensures forall x :: x in r <==> IsActive(users, x)
    ensures |r| <= |users|
    decreases |users|
  {
    if |users| == 0 then []
    else
      var rest := ActiveNames(users[..|users| - 1]);
      var last := users[|users| - 1];
      assert forall x :: IsActive(users, x) <==> IsActive(users[..|users| - 1], x) || (last.active && last.username == x) by {
        forall x ensures IsActive(users, x) ==> IsActive(users[..|users| - 1], x) || (last.active && last.username == x) {
          if IsActive(users, x) {
            var i :| 0 <= i < |users| && users[i].username == x && users[i].active;
            if i < |users| - 1 {
              assert users[..|users| - 1][i] == users[i];
            }
          }
        }
      }
      if last.active then rest + [last.username] else rest
  }

  /** With unique names, no active name is listed twice. */
  lemma {:induction false} ActiveNamesDistinct(users: seq<User>)
    requires UniqueNames(users)
    ensures forall i, j :: 0 <= i < j < |ActiveNames(users)| ==> ActiveNames(users)[i] != ActiveNames(users)[j]
    decreases |users|
  {
    if |users| > 0 {
      var prefix := users[..|users| - 1];
      assert UniqueNames(prefix) by {
        forall i, j | 0 <= i < j < |prefix| ensures prefix[i].username != prefix[j].username {
          assert prefix[i] == users[i] && prefix[j] == users[j];
        }
      }
      ActiveNamesDistinct(prefix);
      var last := users[|users| - 1];
      assert forall k :: 0 <= k < |prefix| ==> prefix[k].username != last.username by {
        forall k | 0 <= k < |prefix| ensures prefix[k].username != last.username {
          assert prefix[k] == users[k];
        }
      }
      assert !IsActive(prefix, last.username);
    }
  }

  /** The table after `users[i].active = b`, as `u.active = True/False` does. */
  function SetActive(users: seq<User>, i: nat, b: bool): (r: seq<User>)
    requires i < |users|
    ensures |r| == |users|
    ensures r[i].username == users[i].username && r[i].password == users[i].password && r[i].active == b
    ensures forall k :: 0 <= k < |users| && k != i ==> r[k] == users[k]
  {
    users[i := users[i].(active := b)]
  }

  /**
   * Setting one user's flag puts that name in the roster exactly when the
   * flag is true, and leaves every other name's presence unchanged.
   */
  lemma RosterAfterSetActive(users: seq<User>, i: nat, b: bool)
    requires UniqueNames(users) && i < |users|
    ensures UniqueNames(SetActive(users, i, b))
    ensures forall x :: x in ActiveNames(SetActive(users, i, b)) <==>
      if x == users[i].username then b else x in ActiveNames(users)
  {
    var r := SetActive(users, i, b);
    forall x ensures IsActive(r, x) <==> if x == users[i].username then b else IsActive(users, x) {
      if x == users[i].username {
        if IsActive(r, x) {
          var k :| 0 <= k < |r| && r[k].username == x && r[k].active;
          assert k == i;
        }
        if b { assert r[i].username == x && r[i].active; }
      } else {
        if IsActive(r, x) {
          var k :| 0 <= k < |r| && r[k].username == x && r[k].active;
          assert users[k] == r[k];
        }
        if IsActive(users, x) {
          var k :| 0 <= k < |users| && users[k].username == x && users[k].active;
          assert users[k] == r[k];
        }
      }
    }
  }
}
