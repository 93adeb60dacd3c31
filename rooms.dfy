/**
 * The room of a private conversation. Every private handler of the server
 * (join_private, private_message, typing) names the room of a pair of users
 * by sorting the two names and joining them with a dash.
 */
module Rooms {
  import opened Options

  /** Python's `<` on `str`: lexicographic by code point, a proper prefix being smaller. */
  predicate Less(a: string, b: string)
    decreases |a|
  {
    if |a| == 0 then |b| > 0
    else if |b| == 0 then false
    else if a[0] != b[0] then a[0] < b[0]
    else Less(a[1..], b[1..])
  }

  lemma {:induction false} LessIrreflexive(a: string)
    ensures !Less(a, a)
    decreases |a|
  {
    if |a| > 0 {
      LessIrreflexive(a[1..]);
    }
  }

  lemma {:induction false} LessAsymmetric(a: string, b: string)
    ensures Less(a, b) ==> !Less(b, a)
    decreases |a|
  {
    if |a| > 0 && |b| > 0 && a[0] == b[0] {
      LessAsymmetric(a[1..], b[1..]);
    }
  }

  /** Two different names are always ordered one way or the other. */
  lemma {:induction false} LessTrichotomy(a: string, b: string)
    ensures a == b || Less(a, b) || Less(b, a)
    decreases |a|
  {
    if |a| > 0 && |b| > 0 && a[0] == b[0] {
      LessTrichotomy(a[1..], b[1..]);
      if a[1..] == b[1..] {
        assert a == [a[0]] + a[1..] && b == [b[0]] + b[1..];
      }
    }
  }

  /** The smaller and the larger of two names under `Less`. */
  function Min(a: string, b: string): string
  {
    if Less(a, b) then a else b
  }

  function Max(a: string, b: string): string
  {
    if Less(a, b) then b else a
  }

  /**
   * `"-".join(sorted([a, b]))`. On a two-element list Python's sort asks
   * only whether the second element is `<` the first, and swaps if so.
   */
  function Key(a: string, b: string): (r: string)
    ensures r == a + "-" + b || r == b + "-" + a
    ensures |r| == |a| + |b| + 1
  {
    if Less(b, a) then b + "-" + a else a + "-" + b
  }

  /** The key is the smaller name, a dash, and the larger name. */
  lemma KeyIsMinDashMax(a: string, b: string)
    ensures Key(a, b) == Min(a, b) + "-" + Max(a, b)
  {
    LessAsymmetric(a, b);
    LessTrichotomy(a, b);
  }

  /** Both participants compute the same room, whoever sends. */
  lemma KeySymmetric(a: string, b: string)
    ensures Key(a, b) == Key(b, a)
  {
    LessAsymmetric(a, b);
    LessTrichotomy(a, b);
  }

  /** A user paired with themself is not rejected: the room is the name twice. */
  lemma KeyOfSamePair(a: string)
    ensures Key(a, a) == a + "-" + a
  {
  }

  /** Splitting at the first dash recovers both halves when the left half has no dash. */
  lemma SplitAtDash(x: string, y: string, z: string, w: string)
    requires '-' !in x && '-' !in z
    requires x + "-" + y == z + "-" + w
    ensures x == z && y == w
  {
    var s := x + "-" + y;
    // the first dash of s sits right after x, and right after z
    assert s[|x|] == '-' && s[|z|] == '-';
    assert forall k :: 0 <= k < |x| ==> s[k] == x[k];
    assert forall k :: 0 <= k < |z| ==> s[k] == z[k];
    assert |x| == |z|;
    assert x == s[..|x|];
    assert z == (z + "-" + w)[..|z|];
    assert y == s[|x| + 1..];
    assert w == (z + "-" + w)[|z| + 1..];
  }

  /** For names without a dash, a room belongs to exactly one unordered pair. */
  lemma KeyDeterminesPair(a: string, b: string, c: string, d: string)
    requires '-' !in a && '-' !in b && '-' !in c && '-' !in d
    requires Key(a, b) == Key(c, d)
    ensures (a == c && b == d) || (a == d && b == c)
  {
    if Less(b, a) {
      if Less(d, c) { SplitAtDash(b, a, d, c); } else { SplitAtDash(b, a, c, d); }
    } else {
      if Less(d, c) { SplitAtDash(a, b, d, c); } else { SplitAtDash(a, b, c, d); }
    }
  }

  /**
   * Names may contain a dash, and then two different pairs share a room:
   * "a-b" with "c" and "a" with "b-c" both land in "a-b-c".
   */
  lemma KeyCollidesWithDashes()
    ensures Key("a-b", "c") == Key("a", "b-c") == "a-b-c"
  {
  }

  /**
   * The room a handler targets: `sorted([sender, receiver])` raises a
   * TypeError when either is None (no session user, or no peer in the
   * event), and no room is joined or addressed.
   */
  function RoomFor(sender: Option<string>, receiver: Option<string>): (r: Option<string>)
    ensures r.Some? <==> sender.Some? && receiver.Some?
    ensures r.Some? ==> r.value == Key(sender.value, receiver.value)
  {
    if sender.Some? && receiver.Some? then Some(Key(sender.value, receiver.value)) else None
  }

  /**
   * The two ends of a conversation compute the same room: the session user
   * of one side is the peer named by the other, so `join_private`,
   * `private_message` and `typing` from either side address one room.
   */
  lemma RoomForSymmetric(a: Option<string>, b: Option<string>)
    ensures RoomFor(a, b) == RoomFor(b, a)
  {
    if a.Some? && b.Some? {
      KeySymmetric(a.value, b.value);
    }
  }
}
