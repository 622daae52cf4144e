/** The read query behind `GET /api/tasks`:
    `WHERE completed = false ORDER BY created_at DESC LIMIT 5`. */
module Query {
  import opened Tasks

  /** The `LIMIT` of the listing query. */
  const ListLimit: nat := 5

  function Min(a: nat, b: nat): nat { if a <= b then a else b }

  /** Ordered by `created_at`, most recent first. Rows with equal
      `created_at` may stand in either order. */
  predicate NewestFirst(s: seq<Task>) {
    forall i, j :: 0 <= i < j < |s| ==> s[i].createdAt >= s[j].createdAt
  }

  /** `WHERE completed = false`, in table order. */
  function Incomplete(rows: seq<Task>): (r: seq<Task>)
    ensures |r| <= |rows|
    ensures forall t :: t in r <==> t in rows && !t.completed
  {
    if rows == [] then []
    else (if rows[0].completed then [] else [rows[0]]) + Incomplete(rows[1..])
  }

  /** The filter keeps every incomplete row, as often as it occurs, and no
      completed row. */
  lemma {:induction false} IncompleteCounts(rows: seq<Task>)
    ensures forall t :: multiset(Incomplete(rows))[t] == if t.completed then 0 else multiset(rows)[t]
  {
    if rows != [] {
      IncompleteCounts(rows[1..]);
      assert rows == [rows[0]] + rows[1..];
    }
  }

  lemma IncompleteCons(t: Task, s: seq<Task>)
    ensures Incomplete([t] + s) == (if t.completed then [] else [t]) + Incomplete(s)
  {
    assert ([t] + s)[1..] == s;
  }

  /** Places `t` into a list that is already newest first. */
  function InsertByNewest(t: Task, s: seq<Task>): (r: seq<Task>)
    requires NewestFirst(s)
    ensures NewestFirst(r)
    ensures multiset(r) == multiset(s) + multiset{t}
    ensures forall u :: u in r ==> u in s || u == t
  {
    if s == [] || t.createdAt >= s[0].createdAt then
      NewerHead(t, s);
      [t] + s
    else
      var rest := InsertByNewest(t, s[1..]);
      assert s == [s[0]] + s[1..];
      NotNewerThanHead(s[0], t, s[1..], rest);
      NewerHead(s[0], rest);
      [s[0]] + rest
  }

  /** A row no older than any row of a newest-first list can lead it. */
  lemma NewerHead(h: Task, s: seq<Task>)
    requires NewestFirst(s)
    requires s == [] || s[0].createdAt <= h.createdAt
    ensures NewestFirst([h] + s)
  {
    var r := [h] + s;
    forall i, j | 0 <= i < j < |r| ensures r[i].createdAt >= r[j].createdAt {
      if i == 0 { assert r[j] == s[j - 1]; } else { assert r[i] == s[i - 1] && r[j] == s[j - 1]; }
    }
  }

  /** Inserting a row older than `h` into a newest-first tail of `h` leaves
      `h` no older than the first row of the result. */
  lemma NotNewerThanHead(h: Task, t: Task, tail: seq<Task>, rest: seq<Task>)
    requires NewestFirst([h] + tail)
    requires t.createdAt < h.createdAt
    requires forall u :: u in rest ==> u in tail || u == t
    ensures rest == [] || rest[0].createdAt <= h.createdAt
  {
    if rest != [] && rest[0] != t {
      assert rest[0] in rest;
      var j :| 0 <= j < |tail| && tail[j] == rest[0];
      assert ([h] + tail)[0] == h && ([h] + tail)[j + 1] == tail[j];
      assert h.createdAt >= tail[j].createdAt;
    }
  }

  /** `ORDER BY created_at DESC`: the same rows, newest first. */
  function SortByNewest(s: seq<Task>): (r: seq<Task>)
    ensures NewestFirst(r)
    ensures multiset(r) == multiset(s)
  {
    if s == [] then []
    else
      assert s == [s[0]] + s[1..];
      InsertByNewest(s[0], SortByNewest(s[1..]))
  }

  /** The rows `getTasks` answers with: at most five incomplete rows of the
      table, newest first; all of them when there are at most five. */
  function RecentIncomplete(rows: seq<Task>): (r: seq<Task>)
    ensures |r| == Min(ListLimit, |Incomplete(rows)|)
    ensures forall t :: t in r ==> t in rows && !t.completed
    ensures NewestFirst(r)
    ensures multiset(r) <= multiset(Incomplete(rows))
    ensures |Incomplete(rows)| <= ListLimit ==> multiset(r) == multiset(Incomplete(rows))
  {
    var incomplete := Incomplete(rows);
    var sorted := SortByNewest(incomplete);
    var k := Min(ListLimit, |sorted|);
    assert |sorted| == |incomplete| by {
      assert |multiset(sorted)| == |multiset(incomplete)|;
    }
    TakeIsSubMultiset(sorted, k);
    TakeNewestFirst(sorted, k);
    forall t | t in sorted[..k] ensures t in rows && !t.completed {
      assert t in multiset(incomplete);
    }
    sorted[..k]
  }

  /** A prefix keeps every row at most as often, and all of them when it is
      the whole list. */
  lemma TakeIsSubMultiset(s: seq<Task>, k: nat)
    requires k <= |s|
    ensures multiset(s[..k]) <= multiset(s)
    ensures k == |s| ==> multiset(s[..k]) == multiset(s)
    ensures forall t :: t in s[..k] ==> t in multiset(s)
  {
    assert s == s[..k] + s[k..];
  }

  lemma TakeNewestFirst(s: seq<Task>, k: nat)
    requires NewestFirst(s) && k <= |s|
    ensures NewestFirst(s[..k])
  {
    forall i, j | 0 <= i < j < k ensures s[..k][i].createdAt >= s[..k][j].createdAt {
      assert s[..k][i] == s[i] && s[..k][j] == s[j];
    }
  }

  /** No incomplete row left out of the listing is newer than any row in it. */
  lemma OmittedAreNotNewer(rows: seq<Task>, t: Task, u: Task)
    requires t in rows && !t.completed && t !in RecentIncomplete(rows)
    requires u in RecentIncomplete(rows)
    ensures t.createdAt <= u.createdAt
  {
    var sorted := SortByNewest(Incomplete(rows));
    assert t in Incomplete(rows);
    assert t in multiset(sorted);
    PrefixBound(sorted, Min(ListLimit, |sorted|), t, u);
  }

  /** In a newest-first list, a row outside a prefix is no newer than any
      row inside it. */
  lemma PrefixBound(s: seq<Task>, k: nat, t: Task, u: Task)
    requires NewestFirst(s) && k <= |s|
    requires t in s && t !in s[..k] && u in s[..k]
    ensures t.createdAt <= u.createdAt
  {
    var i :| 0 <= i < |s| && s[i] == t;
    var j :| 0 <= j < k && s[..k][j] == u;
    assert forall m :: 0 <= m < k ==> s[..k][m] == s[m];
  }

  /** The sequence backwards. */
  function Reverse(s: seq<Task>): (r: seq<Task>)
    ensures |r| == |s|
    ensures forall i :: 0 <= i < |s| ==> r[i] == s[|s| - 1 - i]
  {
    if s == [] then [] else Reverse(s[1..]) + [s[0]]
  }

  /** Every row was created strictly later than the rows before it. */
  predicate StrictlyOlderFirst(s: seq<Task>) {
    forall i, j :: 0 <= i < j < |s| ==> s[i].createdAt < s[j].createdAt
  }

  lemma {:induction false} InsertOldest(t: Task, s: seq<Task>)
    requires NewestFirst(s)
    requires forall u :: u in s ==> t.createdAt < u.createdAt
    ensures InsertByNewest(t, s) == s + [t]
  {
    if s != [] {
      InsertOldest(t, s[1..]);
      assert s == [s[0]] + s[1..];
    }
  }

  /** Rows stored with strictly increasing `created_at`: sorting newest
      first is the reverse of the stored order. */
  lemma {:induction false} SortOfStrictlyOlderFirst(s: seq<Task>)
    requires StrictlyOlderFirst(s)
    ensures SortByNewest(s) == Reverse(s)
  {
    if s != [] {
      SortOfStrictlyOlderFirst(s[1..]);
      var rest := SortByNewest(s[1..]);
      forall u | u in rest ensures s[0].createdAt < u.createdAt {
        assert u in multiset(rest);
      }
      InsertOldest(s[0], rest);
    }
  }

  lemma {:induction false} IncompleteOfActive(rows: seq<Task>)
    requires forall t :: t in rows ==> !t.completed
    ensures Incomplete(rows) == rows
  {
    if rows != [] {
      IncompleteOfActive(rows[1..]);
    }
  }

  /** A table whose rows are all incomplete and were inserted at strictly
      increasing times lists its last five rows, the most recent first. */
  lemma ListingOfActiveInOrder(rows: seq<Task>)
    requires forall t :: t in rows ==> !t.completed
    requires StrictlyOlderFirst(rows)
    ensures |RecentIncomplete(rows)| == Min(ListLimit, |rows|)
    ensures forall k :: 0 <= k < |RecentIncomplete(rows)| ==>
      RecentIncomplete(rows)[k] == rows[|rows| - 1 - k]
  {
    IncompleteOfActive(rows);
    SortOfStrictlyOlderFirst(rows);
  }
}
