/**
 * The admin listing's order: every record, most recently created first
 * (`ORDER BY created_at DESC`). The order among equal timestamps is not
 * fixed by the query; the function below happens to keep table order on ties.
 */
module Listing {
  import opened Requests

  /** Creation times never increase along the sequence. */
  predicate NewestFirst(s: seq<Record>)
  {
    forall i, j | 0 <= i < j < |s| :: s[i].createdAt >= s[j].createdAt
  }

  /** Creation times strictly increase along the sequence (a table filled by a strictly advancing clock). */
  predicate StrictlyChronological(s: seq<Record>)
  {
    forall i, j | 0 <= i < j < |s| :: s[i].createdAt < s[j].createdAt
  }

  /** Putting a record no older than the head in front keeps a sequence newest first. */
  lemma ConsNewestFirst(y: Record, t: seq<Record>)
    requires NewestFirst(t)
    requires t == [] || y.createdAt >= t[0].createdAt
    ensures NewestFirst([y] + t)
  {
    var r := [y] + t;
    forall i, j | 0 <= i < j < |r| ensures r[i].createdAt >= r[j].createdAt {
      if i == 0 {
        assert r[j] == t[j - 1];
        assert t[0].createdAt >= t[j - 1].createdAt;
      } else {
        assert r[i] == t[i - 1] && r[j] == t[j - 1];
      }
    }
  }

  /** Places `x` in a newest-first sequence, before the first record not newer than it. */
  function InsertByNewest(x: Record, s: seq<Record>): (r: seq<Record>)
    requires NewestFirst(s)
    ensures NewestFirst(r)
    ensures multiset(r) == multiset(s) + multiset{x}
    ensures |r| == |s| + 1 && (r[0] == x || (s != [] && r[0] == s[0]))
  {
    if s == [] then [x]
    else if x.createdAt >= s[0].createdAt then
      ConsNewestFirst(x, s);
      [x] + s
    else
      var t := InsertByNewest(x, s[1..]);
      ConsNewestFirst(s[0], t);
      assert s == [s[0]] + s[1..];
      [s[0]] + t
  }

  /** The listing: the records of the table ordered newest first. */
  function SortNewest(s: seq<Record>): (r: seq<Record>)
    ensures NewestFirst(r)
    ensures multiset(r) == multiset(s)
  {
    if s == [] then []
    else
      assert s == [s[0]] + s[1..];
      InsertByNewest(s[0], SortNewest(s[1..]))
  }

  function Reversed(s: seq<Record>): (r: seq<Record>)
  {
    if s == [] then [] else Reversed(s[1..]) + [s[0]]
  }

  /** Reversing a table with one more row at the end puts that row first. */
  lemma {:induction false} ReversedSnoc(s: seq<Record>, z: Record)
    ensures Reversed(s + [z]) == [z] + Reversed(s)
  {
    if s != [] {
      assert (s + [z])[1..] == s[1..] + [z];
      ReversedSnoc(s[1..], z);
    }
  }

  /** A newest-first arrangement of a strictly chronological table starts with its last row. */
  lemma NewestComesFirst(a: seq<Record>, s: seq<Record>)
    requires StrictlyChronological(s) && s != []
    requires NewestFirst(a) && multiset(a) == multiset(s)
    ensures |a| == |s| && a[0] == s[|s| - 1]
  {
    assert |a| == |multiset(a)| == |s|;
    var z := s[|s| - 1];
    assert z in multiset(a);
    var k :| 0 <= k < |a| && a[k] == z;
    assert a[0].createdAt >= z.createdAt;
    assert a[0] in multiset(s);
    var j :| 0 <= j < |s| && s[j] == a[0];
    assert j == |s| - 1;
  }

  /**
   * When the records were created at strictly increasing times, every
   * newest-first arrangement of them is the table in reverse: the last
   * inserted comes first. So the listing's order is fully determined then.
   */
  lemma {:induction false} ChronologicalListingIsReversed(a: seq<Record>, s: seq<Record>)
    requires StrictlyChronological(s)
    requires NewestFirst(a) && multiset(a) == multiset(s)
    ensures a == Reversed(s)
  {
    if s == [] {
      assert |a| == |multiset(a)| == 0;
    } else {
      var init, z := s[..|s| - 1], s[|s| - 1];
      NewestComesFirst(a, s);
      DropNewest(a, s);
      ChronologicalListingIsReversed(a[1..], init);
      assert s == init + [z];
      ReversedSnoc(init, z);
      assert a == [z] + a[1..];
    }
  }

  /** Taking the newest row off both a listing and its table leaves a listing of the rest. */
  lemma DropNewest(a: seq<Record>, s: seq<Record>)
    requires s != [] && |a| == |s| && a[0] == s[|s| - 1]
    requires StrictlyChronological(s) && NewestFirst(a) && multiset(a) == multiset(s)
    ensures StrictlyChronological(s[..|s| - 1]) && NewestFirst(a[1..])
    ensures multiset(a[1..]) == multiset(s[..|s| - 1])
  {
    DropEnds(a, s);
  }

  /** Removing the same record from the front of one sequence and the back of another keeps equal multisets equal. */
  lemma DropEnds(a: seq<Record>, s: seq<Record>)
    requires a != [] && s != [] && a[0] == s[|s| - 1]
    requires multiset(a) == multiset(s)
    ensures multiset(a[1..]) == multiset(s[..|s| - 1])
  {
    var init, z := s[..|s| - 1], s[|s| - 1];
    assert a == [z] + a[1..];
    assert s == init + [z];
    assert multiset(a) == multiset{z} + multiset(a[1..]);
    assert multiset(s) == multiset(init) + multiset{z};
    assert multiset(a[1..]) == multiset(a) - multiset{z} == multiset(init);
  }

}
