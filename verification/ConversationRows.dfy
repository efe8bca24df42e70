/** Rows of the message table: selecting some of them, and putting them in order of time. */
module ConversationRows {
  import opened Bytes
  import opened Sequences
  import opened Wrappers

  datatype Row = Row(
    id: nat, conv: string, role: string, content: bytes, tool: Option<string>, ts: int, speaker: Option<string>)

  // ---------------------------------------------------------------- selecting

  function Where(rows: seq<Row>, keep: Row -> bool): (r: seq<Row>)
    ensures forall row :: row in r <==> row in rows && keep(row)
    ensures |r| <= |rows|
  {
    if rows == [] then []
    else (if keep(rows[0]) then [rows[0]] else []) + Where(rows[1..], keep)
  }

  lemma WhereCons(row: Row, rows: seq<Row>, keep: Row -> bool)
    ensures Where([row] + rows, keep) == (if keep(row) then [row] else []) + Where(rows, keep)
  {
    assert ([row] + rows)[1..] == rows;
  }

  lemma {:induction false} WhereAppend(a: seq<Row>, b: seq<Row>, keep: Row -> bool)
    ensures Where(a + b, keep) == Where(a, keep) + Where(b, keep)
  {
    if a == [] {
      assert a + b == b;
    } else {
      assert (a + b)[1..] == a[1..] + b;
      WhereAppend(a[1..], b, keep);
    }
  }

  lemma {:induction false} WhereWhere(rows: seq<Row>, first: Row -> bool, second: Row -> bool, both: Row -> bool)
    requires forall row :: row in rows ==> both(row) == (first(row) && second(row))
    ensures Where(Where(rows, first), second) == Where(rows, both)
  {
    if rows != [] {
      var head := if first(rows[0]) then [rows[0]] else [];
      WhereWhere(rows[1..], first, second, both);
      WhereAppend(head, Where(rows[1..], first), second);
      assert Where([rows[0]][1..], second) == [];
    }
  }

  lemma {:induction false} WhereAgree(rows: seq<Row>, p: Row -> bool, q: Row -> bool)
    requires forall row :: row in rows ==> p(row) == q(row)
    ensures Where(rows, p) == Where(rows, q)
  {
    if rows != [] {
      WhereAgree(rows[1..], p, q);
    }
  }

  lemma {:induction false} WhereAll(rows: seq<Row>, keep: Row -> bool)
    requires forall row :: row in rows ==> keep(row)
    ensures Where(rows, keep) == rows
  {
    if rows != [] {
      WhereAll(rows[1..], keep);
    }
  }

  lemma {:induction false} WhereNone(rows: seq<Row>, keep: Row -> bool)
    requires forall row :: row in rows ==> !keep(row)
    ensures Where(rows, keep) == []
  {
    if rows != [] {
      WhereNone(rows[1..], keep);
    }
  }

  function Ids(rows: seq<Row>): set<nat> {
    set row | row in rows :: row.id
  }

  predicate Distinct(rows: seq<Row>) {
    forall i, j :: 0 <= i < j < |rows| ==> rows[i].id != rows[j].id
  }

  /** In order of the ids, as the table holds them. */
  predicate Ascending(rows: seq<Row>) {
    forall i, j :: 0 <= i < j < |rows| ==> rows[i].id < rows[j].id
  }

  lemma AscendingCons(row: Row, rows: seq<Row>)
    ensures Ascending([row] + rows) <==> Ascending(rows) && forall x :: x in rows ==> row.id < x.id
  {
    var all := [row] + rows;
    if Ascending(all) {
      forall x | x in rows
        ensures row.id < x.id
      {
        var i :| 0 <= i < |rows| && rows[i] == x;
        assert all[0] == row && all[i + 1] == x;
      }
      forall i, j | 0 <= i < j < |rows|
        ensures rows[i].id < rows[j].id
      {
        assert rows[i] == all[i + 1] && rows[j] == all[j + 1];
      }
    }
  }

  lemma {:induction false} WhereAscending(rows: seq<Row>, keep: Row -> bool)
    requires Ascending(rows)
    ensures Ascending(Where(rows, keep))
  {
    if rows != [] {
      assert rows == [rows[0]] + rows[1..];
      AscendingCons(rows[0], rows[1..]);
      WhereAscending(rows[1..], keep);
      AscendingCons(rows[0], Where(rows[1..], keep));
    }
  }

  // ---------------------------------------------------------------- order of time

  /** Earlier in time, ties decided by the row id. */
  predicate Before(a: Row, b: Row) {
    a.ts < b.ts || (a.ts == b.ts && a.id < b.id)
  }

  predicate Sorted(rows: seq<Row>) {
    forall i, j :: 0 <= i < j < |rows| ==> !Before(rows[j], rows[i])
  }

  function Insert(row: Row, rows: seq<Row>): (r: seq<Row>)
    ensures multiset(r) == multiset(rows) + multiset{row}
  {
    if rows == [] || Before(row, rows[0]) then
      assert multiset([row] + rows) == multiset{row} + multiset(rows);
      [row] + rows
    else
      assert rows == [rows[0]] + rows[1..];
      assert multiset([rows[0]] + Insert(row, rows[1..])) == multiset{rows[0]} + multiset(Insert(row, rows[1..]));
      [rows[0]] + Insert(row, rows[1..])
  }

  /** The rows in order of time. */
  function Sort(rows: seq<Row>): (r: seq<Row>)
    ensures multiset(r) == multiset(rows)
  {
    if rows == [] then []
    else
      assert rows == [rows[0]] + rows[1..];
      Insert(rows[0], Sort(rows[1..]))
  }

  lemma SameRows(a: seq<Row>, b: seq<Row>)
    requires multiset(a) == multiset(b)
    ensures |a| == |b| && forall row :: row in a <==> row in b
  {
    assert |multiset(a)| == |multiset(b)|;
    assert forall row :: row in a <==> row in multiset(a);
    assert forall row :: row in b <==> row in multiset(b);
  }

  lemma {:induction false} InsertSorted(row: Row, rows: seq<Row>)
    requires Sorted(rows)
    ensures Sorted(Insert(row, rows))
  {
    if rows != [] && !Before(row, rows[0]) {
      var rest := Insert(row, rows[1..]);
      InsertSorted(row, rows[1..]);
      InsertedRows(row, rows[1..]);
      assert forall x :: x in rest ==> !Before(x, rows[0]);
    }
  }

  lemma InsertedRows(row: Row, rows: seq<Row>)
    ensures forall x :: x in Insert(row, rows) <==> x == row || x in rows
  {
    assert forall x :: x in Insert(row, rows) <==> x in multiset(Insert(row, rows));
    assert forall x :: x in rows <==> x in multiset(rows);
  }

  lemma {:induction false} SortSorted(rows: seq<Row>)
    ensures Sorted(Sort(rows))
  {
    if rows != [] {
      SortSorted(rows[1..]);
      InsertSorted(rows[0], Sort(rows[1..]));
    }
  }

  /** A row that belongs in front of a sorted sequence is inserted in front. */
  lemma {:induction false} InsertFront(row: Row, rows: seq<Row>)
    requires forall x :: x in rows ==> Before(row, x)
    ensures Insert(row, rows) == [row] + rows
  {
  }

  lemma {:induction false} SortFixed(rows: seq<Row>)
    requires Sorted(rows) && Distinct(rows)
    ensures Sort(rows) == rows
  {
    if rows != [] {
      SortFixed(rows[1..]);
      assert forall i :: 0 < i < |rows| ==> Before(rows[0], rows[i]);
      InsertFront(rows[0], rows[1..]);
    }
  }

  lemma SameFirst(a: seq<Row>, b: seq<Row>)
    requires Sorted(a) && Sorted(b) && multiset(a) == multiset(b) && Distinct(a) && a != [] && b != []
    ensures a[0] == b[0]
  {
    SameRows(a, b);
    assert a[0] in b && b[0] in a;
    var i :| 0 <= i < |b| && b[i] == a[0];
    var j :| 0 <= j < |a| && a[j] == b[0];
  }

  /** There is one way to put rows with different ids in order of time. */
  lemma {:induction false} SortedUnique(a: seq<Row>, b: seq<Row>)
    requires Sorted(a) && Sorted(b) && multiset(a) == multiset(b) && Distinct(a)
    ensures a == b
    decreases |a|
  {
    hide Sorted, Distinct;
    SameRows(a, b);
    if a != [] {
      SameFirst(a, b);
      TailInOrder(a);
      TailInOrder(b);
      TailDistinct(a);
      assert a == [a[0]] + a[1..];
      assert b == [b[0]] + b[1..];
      SortedUnique(a[1..], b[1..]);
    }
  }

  lemma TailInOrder(rows: seq<Row>)
    requires Sorted(rows) && rows != []
    ensures Sorted(rows[1..]) && multiset(rows[1..]) == multiset(rows) - multiset{rows[0]}
  {
    assert rows == [rows[0]] + rows[1..];
  }

  lemma TailDistinct(rows: seq<Row>)
    requires Distinct(rows) && rows != []
    ensures Distinct(rows[1..])
  {
  }

  lemma {:induction false} InsertWhere(row: Row, rows: seq<Row>, keep: Row -> bool)
    requires Sorted(rows)
    ensures Where(Insert(row, rows), keep) == if keep(row) then Insert(row, Where(rows, keep)) else Where(rows, keep)
  {
    hide Where;
    if rows == [] || Before(row, rows[0]) {
      WhereCons(row, rows, keep);
      if keep(row) {
        assert forall x :: x in rows ==> Before(row, x);
        InsertFront(row, Where(rows, keep));
      }
    } else {
      var first, more := rows[0], rows[1..];
      assert rows == [first] + more;
      WhereCons(first, more, keep);
      WhereCons(first, Insert(row, more), keep);
      InsertWhere(row, more, keep);
      InsertPast(row, first, more);
      InsertPast(row, first, Where(more, keep));
      assert [] + Where(more, keep) == Where(more, keep);
    }
  }

  lemma InsertPast(row: Row, first: Row, rows: seq<Row>)
    requires !Before(row, first)
    ensures Insert(row, [first] + rows) == [first] + Insert(row, rows)
  {
    assert ([first] + rows)[1..] == rows;
  }

  /** Selecting before sorting is selecting after it. */
  lemma {:induction false} SortWhere(rows: seq<Row>, keep: Row -> bool)
    ensures Sort(Where(rows, keep)) == Where(Sort(rows), keep)
  {
    hide Where, Insert, Sort;
    if rows != [] {
      var first, more := rows[0], rows[1..];
      assert rows == [first] + more;
      WhereCons(first, more, keep);
      SortWhere(more, keep);
      SortSorted(more);
      InsertWhere(first, Sort(more), keep);
      SortCons(first, more);
      SortCons(first, Where(more, keep));
      assert [] + Where(more, keep) == Where(more, keep);
    } else {
      WhereAll(rows, keep);
      SortFixed(rows);
    }
  }

  lemma SortCons(row: Row, rows: seq<Row>)
    ensures Sort([row] + rows) == Insert(row, Sort(rows))
  {
    assert ([row] + rows)[1..] == rows;
  }

  // ---------------------------------------------------------------- one conversation

  function InConversation(conv: string): Row -> bool {
    (row: Row) => row.conv == conv
  }

  /** A conversation's messages in order of time. */
  function Ordered(rows: seq<Row>, conv: string): (r: seq<Row>)
    ensures forall row :: row in r <==> row in rows && row.conv == conv
  {
    var mine := Where(rows, InConversation(conv));
    SameRows(Sort(mine), mine);
    Sort(mine)
  }

  lemma WhereDistinct(rows: seq<Row>, keep: Row -> bool)
    requires Distinct(rows)
    ensures Distinct(Where(rows, keep))
  {
    if rows != [] {
      WhereDistinct(rows[1..], keep);
      assert forall i :: 0 < i < |rows| ==> rows[i] == rows[1..][i - 1];
      assert forall row :: row in rows[1..] ==> row.id != rows[0].id;
    }
  }

  lemma DistinctCons(row: Row, rows: seq<Row>)
    ensures Distinct([row] + rows) <==> Distinct(rows) && row.id !in Ids(rows)
  {
    var all := [row] + rows;
    assert forall i :: 0 <= i < |rows| ==> all[i + 1] == rows[i];
    if Distinct(all) {
      forall i, j | 0 <= i < j < |rows|
        ensures rows[i].id != rows[j].id
      {
        assert all[i + 1].id != all[j + 1].id;
      }
      forall x | x in rows
        ensures x.id != row.id
      {
        var i :| 0 <= i < |rows| && rows[i] == x;
        assert all[0].id != all[i + 1].id;
      }
    }
  }

  lemma {:induction false} InsertDistinct(row: Row, rows: seq<Row>)
    requires Distinct(rows) && row.id !in Ids(rows)
    ensures Distinct(Insert(row, rows))
  {
    hide Distinct;
    if rows == [] || Before(row, rows[0]) {
      DistinctCons(row, rows);
    } else {
      var first, more := rows[0], rows[1..];
      assert rows == [first] + more;
      DistinctCons(first, more);
      InsertDistinct(row, more);
      InsertedRows(row, more);
      DistinctCons(first, Insert(row, more));
    }
  }

  lemma {:induction false} SortDistinct(rows: seq<Row>)
    requires Distinct(rows)
    ensures Distinct(Sort(rows))
  {
    if rows != [] {
      SortDistinct(rows[1..]);
      SameRows(Sort(rows[1..]), rows[1..]);
      InsertDistinct(rows[0], Sort(rows[1..]));
    }
  }

  lemma OrderedDistinct(rows: seq<Row>, conv: string)
    requires Distinct(rows)
    ensures Distinct(Ordered(rows, conv)) && Sorted(Ordered(rows, conv))
  {
    WhereDistinct(rows, InConversation(conv));
    SortDistinct(Where(rows, InConversation(conv)));
    SortSorted(Where(rows, InConversation(conv)));
  }

  /** `r` holds exactly the rows of a conversation, in order of time. */
  ghost predicate InOrder(r: seq<Row>, rows: seq<Row>, conv: string) {
    Sorted(r) && forall row :: multiset(r)[row] == if row.conv == conv then multiset(rows)[row] else 0
  }

  lemma {:induction false} WhereCounts(rows: seq<Row>, keep: Row -> bool, row: Row)
    ensures multiset(Where(rows, keep))[row] == if keep(row) then multiset(rows)[row] else 0
  {
    hide Where;
    if rows == [] {
      WhereNone(rows, keep);
    } else {
      assert rows == [rows[0]] + rows[1..];
      WhereCons(rows[0], rows[1..], keep);
      WhereCounts(rows[1..], keep, row);
    }
  }

  /** There is exactly one such sequence. */
  lemma InOrderIff(r: seq<Row>, rows: seq<Row>, conv: string)
    requires Distinct(rows)
    ensures InOrder(r, rows, conv) <==> r == Ordered(rows, conv)
  {
    hide Where, Sorted, Distinct;
    var ordered := Ordered(rows, conv);
    OrderedDistinct(rows, conv);
    forall row: Row
      ensures multiset(ordered)[row] == if row.conv == conv then multiset(rows)[row] else 0
    {
      WhereCounts(rows, InConversation(conv), row);
    }
    if InOrder(r, rows, conv) {
      assert multiset(ordered) == multiset(r);
      SortedUnique(ordered, r);
    }
  }

  lemma OrderedWhere(rows: seq<Row>, conv: string, keep: Row -> bool)
    ensures Ordered(Where(rows, keep), conv) == Where(Ordered(rows, conv), keep)
  {
    var both := (row: Row) => row.conv == conv && keep(row);
    WhereWhere(rows, keep, InConversation(conv), both);
    WhereWhere(rows, InConversation(conv), keep, both);
    SortWhere(Where(rows, InConversation(conv)), keep);
  }

  // ---------------------------------------------------------------- windows

  /** A conversation's `n` newest messages, newest first. */
  function Newest(rows: seq<Row>, conv: string, n: nat): seq<Row> {
    var all := Reversed(Ordered(rows, conv));
    if |all| <= n then all else all[..n]
  }

  lemma NewestIsLast(rows: seq<Row>, conv: string, n: nat)
    ensures Newest(rows, conv, n) == Reversed(Last(Ordered(rows, conv), n))
    ensures Ids(Newest(rows, conv, n)) == Ids(Last(Ordered(rows, conv), n))
  {
    hide Ordered;
    ReversedLast(Ordered(rows, conv), n);
    ReversedIds(Last(Ordered(rows, conv), n));
  }

  lemma ReversedLast(rows: seq<Row>, n: nat)
    ensures (if |rows| <= n then Reversed(rows) else Reversed(rows)[..n]) == Reversed(Last(rows, n))
  {
  }

  lemma ReversedIds(rows: seq<Row>)
    ensures Ids(Reversed(rows)) == Ids(rows)
  {
    forall row | row in rows
      ensures row in Reversed(rows)
    {
      var i :| 0 <= i < |rows| && rows[i] == row;
      assert Reversed(rows)[|rows| - 1 - i] == row;
    }
  }

  lemma {:induction false} ReversedRows(rows: seq<Row>)
    ensures multiset(Reversed(rows)) == multiset(rows)
  {
    if rows != [] {
      var n := |rows| - 1;
      ReversedRows(rows[1..]);
      assert Reversed(rows) == Reversed(rows[1..]) + [rows[0]];
      assert rows == [rows[0]] + rows[1..];
    }
  }

  /** Putting the newest messages back in order of time gives the end of the conversation. */
  lemma NewestInOrder(rows: seq<Row>, conv: string, n: nat)
    requires Distinct(rows)
    ensures Sort(Newest(rows, conv, n)) == Last(Ordered(rows, conv), n)
  {
    var last := Last(Ordered(rows, conv), n);
    NewestIsLast(rows, conv, n);
    ReversedRows(last);
    OrderedDistinct(rows, conv);
    SortSorted(Reversed(last));
    SortedUnique(last, Sort(Reversed(last)));
  }

  lemma LastRows(rows: seq<Row>, n: nat, row: Row)
    requires Distinct(rows) && row in rows
    ensures row.id in Ids(Last(rows, n)) <==> row in Last(rows, n)
  {
    var last := Last(rows, n);
    if row.id in Ids(last) {
      var other :| other in last && other.id == row.id;
      var i :| 0 <= i < |rows| && rows[i] == row;
      var j :| 0 <= j < |rows| && rows[j] == other;
      assert i == j;
    }
  }

  lemma NotLast(rows: seq<Row>, n: nat)
    requires Distinct(rows) && n < |rows|
    ensures forall row :: row in rows[..|rows| - n] ==> row in rows && row.id !in Ids(Last(rows, n))
  {
    forall row | row in rows[..|rows| - n]
      ensures row in rows && row.id !in Ids(Last(rows, n))
    {
      LastRows(rows, n, row);
    }
  }

  /** Selecting the rows whose ids are among the last `n` selects the last `n`. */
  lemma WhereLast(rows: seq<Row>, n: nat, keep: Row -> bool)
    requires Distinct(rows)
    requires forall row :: row in rows ==> keep(row) == (row.id in Ids(Last(rows, n)))
    ensures Where(rows, keep) == Last(rows, n)
  {
    hide Where, Distinct;
    if |rows| <= n {
      WhereAll(rows, keep);
    } else {
      var k := |rows| - n;
      assert rows == rows[..k] + rows[k..];
      WhereAppend(rows[..k], rows[k..], keep);
      WhereAll(rows[k..], keep);
      assert forall row :: row in rows[k..] ==> row in rows;
      NotLast(rows, n);
      WhereNone(rows[..k], keep);
    }
  }
}
