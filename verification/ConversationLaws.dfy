/** What readers see of what was written and pruned. */
module ConversationLaws {
  import opened Bytes
  import opened ConversationRows
  import opened ConversationStore
  import opened Sequences
  import opened Wrappers

  // ---------------------------------------------------------------- order of time

  /** Rows are shown earlier time first, and within one time smaller id first. */
  lemma InTimeOrder(rows: seq<Row>, conv: string, i: nat, j: nat)
    requires Distinct(rows) && i < j < |Ordered(rows, conv)|
    ensures
      var a, b := Ordered(rows, conv)[i], Ordered(rows, conv)[j];
      a.ts < b.ts || (a.ts == b.ts && a.id < b.id)
  {
    OrderedDistinct(rows, conv);
  }

  // ---------------------------------------------------------------- reading back what was written

  lemma AscendingDistinct(rows: seq<Row>)
    requires Ascending(rows)
    ensures Distinct(rows)
  {
  }

  lemma SortedAppendAll(a: seq<Row>, b: seq<Row>)
    requires Sorted(a) && Ascending(b)
    requires forall x, y :: x in a && y in b ==> x.ts <= y.ts && x.id < y.id
    requires forall i, j :: 0 <= i < |b| && 0 <= j < |b| ==> b[i].ts == b[j].ts
    ensures Sorted(a + b)
  {
    var all := a + b;
    forall i, j | 0 <= i < j < |all|
      ensures !Before(all[j], all[i])
    {
      if j < |a| {
        assert all[i] == a[i] && all[j] == a[j];
      } else if i < |a| {
        assert all[i] in a && all[j] in b;
      } else {
        assert all[i] == b[i - |a|] && all[j] == b[j - |a|];
      }
    }
  }

  lemma AddedRows(before: seq<Row>, after: seq<Row>, conv: string, ms: seq<BatchMessage>, now: int)
    requires RowsAdded(before, after, conv, ms, now) && Ascending(after)
    ensures
      var added := after[|before|..];
      && after == before + added && |added| == |ms| && Ascending(added)
      && (forall i :: 0 <= i < |ms| ==> Holds(added[i], conv, ms[i], now))
      && (forall x, y :: x in before && y in added ==> x.id < y.id)
  {
    var added := after[|before|..];
    assert forall i :: 0 <= i < |added| ==> added[i] == after[|before| + i];
    assert forall i :: 0 <= i < |before| ==> before[i] == after[..|before|][i] == after[i];
  }

  /** When no message of the conversation is newer than the clock, the new ones come last. */
  lemma NewRowsLast(before: seq<Row>, after: seq<Row>, conv: string, ms: seq<BatchMessage>, now: int)
    requires RowsAdded(before, after, conv, ms, now) && Ascending(after)
    requires forall row :: row in before && row.conv == conv ==> row.ts <= now
    ensures Ordered(after, conv) == Ordered(before, conv) + after[|before|..]
  {
    hide Sorted, Where;
    AddedRows(before, after, conv, ms, now);
    var added := after[|before|..];
    forall row | row in added
      ensures row.conv == conv && row.ts == now
    {
      var i :| 0 <= i < |added| && added[i] == row;
      assert Holds(added[i], conv, ms[i], now);
    }
    hide RowsAdded, Holds;
    AscendingDistinct(after);
    assert Ascending(before) by {
      assert forall i :: 0 <= i < |before| ==> before[i] == after[i];
    }
    AscendingDistinct(before);
    OrderedDistinct(after, conv);
    OrderedDistinct(before, conv);
    OrderedRows(before, conv);
    SortedAppendAll(Ordered(before, conv), added);
    WhereAppend(before, added, InConversation(conv));
    WhereAll(added, InConversation(conv));
    SameMultiset(before, after, added, conv);
    SortedUnique(Ordered(after, conv), Ordered(before, conv) + added);
  }

  lemma SameMultiset(before: seq<Row>, after: seq<Row>, added: seq<Row>, conv: string)
    requires Where(after, InConversation(conv)) == Where(before, InConversation(conv)) + added
    ensures multiset(Ordered(after, conv)) == multiset(Ordered(before, conv) + added)
  {
    hide Where;
  }

  /** The text and role of each message. */
  function Spoken(ms: seq<BatchMessage>): (r: seq<(string, bytes)>)
    ensures |r| == |ms| && forall i :: 0 <= i < |ms| ==> r[i] == (ms[i].role, ms[i].content)
  {
    seq(|ms|, i requires 0 <= i < |ms| => (ms[i].role, ms[i].content))
  }

  lemma LastOfAppend(a: seq<Row>, b: seq<Row>)
    ensures Last(a + b, |b|) == b
  {
  }

  lemma RecentIs(rows: seq<Row>, conv: string, ms: seq<BatchMessage>, now: int, prior: seq<Row>, added: seq<Row>)
    requires Ordered(rows, conv) == prior + added && |added| == |ms|
    requires forall i :: 0 <= i < |ms| ==> Holds(added[i], conv, ms[i], now)
    ensures Recent(rows, conv, |ms|) == Spoken(ms)
  {
    hide Ordered;
    LastOfAppend(prior, added);
  }

  /** The messages as they are shown. */
  function AsShown(ms: seq<BatchMessage>): (r: seq<StoredMessage>)
    ensures |r| == |ms|
    ensures forall i :: 0 <= i < |ms| ==> r[i] == StoredMessage(ms[i].role, ms[i].content, ms[i].speaker)
  {
    seq(|ms|, i requires 0 <= i < |ms| => StoredMessage(ms[i].role, ms[i].content, ms[i].speaker))
  }

  lemma ShownAfter(ms: seq<BatchMessage>, conv: string, now: int, prior: seq<Row>, added: seq<Row>)
    requires |added| == |ms|
    requires forall i :: 0 <= i < |ms| ==> Holds(added[i], conv, ms[i], now)
    ensures Shown(prior + added) == Shown(prior) + AsShown(ms)
  {
  }

  /** Unless a message of the conversation is newer than the clock, the newest messages read
      are the new ones, and they are shown last. */
  lemma RecentAfter(before: seq<Row>, after: seq<Row>, conv: string, ms: seq<BatchMessage>, now: int)
    requires RowsAdded(before, after, conv, ms, now) && Ascending(after)
    requires forall row :: row in before && row.conv == conv ==> row.ts <= now
    ensures Recent(after, conv, |ms|) == Spoken(ms)
    ensures Shown(Ordered(after, conv)) == Shown(Ordered(before, conv)) + AsShown(ms)
  {
    hide Ordered, Ascending, Recent, Shown;
    NewRowsLast(before, after, conv, ms, now);
    AddedRows(before, after, conv, ms, now);
    hide RowsAdded;
    RecentIs(after, conv, ms, now, Ordered(before, conv), after[|before|..]);
    ShownAfter(ms, conv, now, Ordered(before, conv), after[|before|..]);
  }

  /** Append a message and read: unless a message is newer than the clock, the newest one
      read is this message, and it is shown last. */
  method AppendThenRead(store: ConversationStore, conv: string, m: BatchMessage, now: int)
    returns (recent: seq<(string, bytes)>, shown: seq<StoredMessage>)
    requires Sound(store.State()) && conv in store.conversations
    requires forall row :: row in store.messages && row.conv == conv ==> row.ts <= now
    modifies store
    ensures recent == [(m.role, m.content)]
    ensures shown != [] && shown[|shown| - 1] == StoredMessage(m.role, m.content, m.speaker)
  {
    ghost var before := store.messages;
    var r := store.Append(conv, m, now);
    recent := store.GetRecent(conv, 1);
    shown := store.GetMessages(conv);
    ShownIs(store.messages, conv, shown);
    OneRead(before, store.messages, conv, m, now);
  }

  lemma OneRead(before: seq<Row>, after: seq<Row>, conv: string, m: BatchMessage, now: int)
    requires RowsAdded(before, after, conv, [m], now) && Ascending(after)
    requires forall row :: row in before && row.conv == conv ==> row.ts <= now
    ensures Recent(after, conv, 1) == [(m.role, m.content)]
    ensures
      var shown := Shown(Ordered(after, conv));
      shown != [] && shown[|shown| - 1] == StoredMessage(m.role, m.content, m.speaker)
  {
    hide *;
    RecentAfter(before, after, conv, [m], now);
  }

  /** The same for a batch, for a conversation that may be new. */
  method BatchThenRead(store: ConversationStore, conv: string, title: bytes, ms: seq<BatchMessage>, now: int)
    returns (recent: seq<(string, bytes)>, shown: seq<StoredMessage>)
    requires Sound(store.State())
    requires forall row :: row in store.messages && row.conv == conv ==> row.ts <= now
    modifies store
    ensures recent == Spoken(ms)
    ensures |shown| >= |ms| && shown[|shown| - |ms|..] == AsShown(ms)
  {
    ghost var before := store.messages;
    store.EnsureAndAppendBatch(conv, title, ms, now);
    recent := store.GetRecent(conv, |ms|);
    shown := store.GetMessages(conv);
    ShownIs(store.messages, conv, shown);
    RecentAfter(before, store.messages, conv, ms, now);
  }

  lemma ShownIs(rows: seq<Row>, conv: string, shown: seq<StoredMessage>)
    requires Ascending(rows) && forall r :: InOrder(r, rows, conv) ==> shown == Shown(r)
    ensures shown == Shown(Ordered(rows, conv))
  {
    AscendingDistinct(rows);
    InOrderIff(Ordered(rows, conv), rows, conv);
  }

  // ---------------------------------------------------------------- pruning row by row

  /** Shown after another row of its conversation. */
  predicate Later(a: Row, b: Row) {
    a.conv == b.conv && (a.ts > b.ts || (a.ts == b.ts && a.id > b.id))
  }

  /** Not too old for the retention. */
  predicate Young(row: Row, now: int, days: nat) {
    days == 0 || row.ts >= now - days * 86_400_000
  }

  /** The rows of the same conversation that are young enough and later. */
  function Ahead(rows: seq<Row>, row: Row, now: int, days: nat): set<Row> {
    set r | r in rows && Later(r, row) && Young(r, now, days)
  }

  function RowSet(rows: seq<Row>): set<Row> {
    set row | row in rows
  }

  lemma RowSetCons(row: Row, rows: seq<Row>)
    ensures RowSet([row] + rows) == RowSet(rows) + {row}
  {
    assert forall x :: x in [row] + rows <==> x == row || x in rows;
  }

  lemma {:induction false} SeqSize(rows: seq<Row>)
    requires Distinct(rows)
    ensures |RowSet(rows)| == |rows|
  {
    if rows != [] {
      TailDistinct(rows);
      SeqSize(rows[1..]);
      assert forall i :: 0 < i < |rows| ==> rows[i].id != rows[0].id;
      hide RowSet, Distinct;
      RowSetCons(rows[0], rows[1..]);
      assert rows == [rows[0]] + rows[1..];
      assert rows[0] !in RowSet(rows[1..]) by {
        FirstNotAgain(rows);
      }
    }
  }

  lemma FirstNotAgain(rows: seq<Row>)
    requires rows != [] && forall i :: 0 < i < |rows| ==> rows[i].id != rows[0].id
    ensures rows[0] !in RowSet(rows[1..])
  {
  }

  /** The rows after one in order of time are those later than it. */
  lemma AheadCounts(kept: seq<Row>, i: nat, ahead: set<Row>)
    requires Sorted(kept) && Distinct(kept) && i < |kept|
    requires forall r :: r in ahead <==> r in kept && Before(kept[i], r)
    ensures |ahead| == |kept| - 1 - i
  {
    var later := kept[i + 1..];
    assert forall j :: 0 <= j < |later| ==> later[j] == kept[i + 1 + j];
    SeqSize(later);
    forall r
      ensures r in ahead <==> r in later
    {
      if r in kept && Before(kept[i], r) {
        var j :| 0 <= j < |kept| && kept[j] == r;
        assert j > i;
        assert later[j - i - 1] == r;
      }
      if r in later {
        var j :| 0 <= j < |later| && later[j] == r;
        assert kept[i + 1 + j] == r && kept[i].id != r.id;
      }
    }
    assert ahead == RowSet(later);
  }

  /** A row survives pruning exactly when it is young enough and fewer than `n` young rows of
      its conversation are later than it. */
  lemma PruneIff(t: Tables, now: int, days: nat, n: nat, row: Row)
    requires Sound(t)
    ensures row in Pruned(t, now, days, n).messages <==>
      row in t.messages && Young(row, now, days) && (n == 0 || |Ahead(t.messages, row, now, days)| < n)
  {
    var conv := row.conv;
    var all := Ordered(t.messages, conv);
    var young := if days == 0 then all else Where(all, NotOlder(Cutoff(now, days)));
    PruneKeepsWindow(t, now, days, n, conv);
    OrderedRows(Pruned(t, now, days, n).messages, conv);
    YoungRows(t, now, days, conv, young);
    hide *;
    if row in young {
      AheadIs(t.messages, row, now, days, young);
      WindowIff(young, n, row, Ahead(t.messages, row, now, days));
    } else {
      WindowWithin(young, n);
    }
  }

  lemma WindowWithin(rows: seq<Row>, n: nat)
    ensures forall row :: row in Window(rows, n) ==> row in rows
  {
  }

  lemma WindowIff(rows: seq<Row>, n: nat, row: Row, ahead: set<Row>)
    requires Sorted(rows) && Distinct(rows) && row in rows
    requires forall r :: r in ahead <==> r in rows && Before(row, r)
    ensures row in Window(rows, n) <==> n == 0 || |ahead| < n
  {
    var i :| 0 <= i < |rows| && rows[i] == row;
    hide *;
    AheadCounts(rows, i, ahead);
    LastHolds(rows, n, i);
  }

  lemma AheadIs(rows: seq<Row>, row: Row, now: int, days: nat, young: seq<Row>)
    requires forall r :: r in young <==> r in rows && r.conv == row.conv && Young(r, now, days)
    ensures forall r :: r in Ahead(rows, row, now, days) <==> r in young && Before(row, r)
  {
  }

  lemma YoungRows(t: Tables, now: int, days: nat, conv: string, young: seq<Row>)
    requires Sound(t)
    requires young == if days == 0 then Ordered(t.messages, conv)
                      else Where(Ordered(t.messages, conv), NotOlder(Cutoff(now, days)))
    ensures Sorted(young) && Distinct(young)
    ensures forall r :: r in young <==> r in t.messages && r.conv == conv && Young(r, now, days)
  {
    AscendingDistinct(t.messages);
    OrderedDistinct(t.messages, conv);
    if days > 0 {
      var keep := NotOlder(Cutoff(now, days));
      WhereDistinct(Ordered(t.messages, conv), keep);
      SortFixed(Ordered(t.messages, conv));
      SortWhere(Ordered(t.messages, conv), keep);
      SortSorted(Where(Ordered(t.messages, conv), keep));
    }
  }

  lemma LastHolds(rows: seq<Row>, n: nat, i: nat)
    requires Distinct(rows) && i < |rows|
    ensures rows[i] in Window(rows, n) <==> n == 0 || |rows| - 1 - i < n
  {
    if n > 0 && |rows| > n {
      var k := |rows| - n;
      if i >= k {
        assert rows[k..][i - k] == rows[i];
      }
    }
  }
}
