/** The conversation store: two tables, written one message or one batch at a time, and
    pruned by age and by length. */
module ConversationStore {
  import opened Bytes
  import opened CharBoundary
  import opened ConversationRows
  import opened Sequences
  import opened Wrappers

  const DAY_MS: nat := 86_400_000
  const USER: string := "user"
  const ELLIPSIS: bytes := Ascii("...")
  const TITLE_MAX: nat := 60
  const TITLE_KEPT: nat := 57

  datatype Conversation = Conversation(title: bytes, created: int, updated: int)

  datatype BatchMessage = BatchMessage(role: string, content: bytes, tool: Option<string>, speaker: Option<string>)

  datatype StoredMessage = StoredMessage(role: string, content: bytes, speaker: Option<string>)

  datatype StoreError = NoSuchConversation

  datatype Tables = Tables(conversations: map<string, Conversation>, messages: seq<Row>)

  /** Rows are held in order of their ids, and each belongs to a conversation. */
  predicate Sound(t: Tables) {
    && Ascending(t.messages)
    && (forall row :: row in t.messages ==> row.conv in t.conversations)
  }

  // ---------------------------------------------------------------- one step at a time

  function TitleOf(content: bytes): (title: bytes)
    ensures |title| <= TITLE_MAX
  {
    if |content| > TITLE_MAX then Truncated(content, TITLE_KEPT) + ELLIPSIS else content
  }

  /** A title is the content itself, or as many of its first characters as fit whole into
      57 bytes and an ellipsis. */
  lemma TitleKeepsWholeChars(chars: seq<bytes>)
    requires forall i :: 0 <= i < |chars| ==> IsChar(chars[i])
    ensures
      var content := Flatten(chars);
      TitleOf(content) == if |content| <= 60 then content else Flatten(Fitting(chars, 57)) + Ascii("...")
  {
    TruncatedKeepsWholeChars(chars, TITLE_KEPT);
  }

  function NextId(rows: seq<Row>): nat {
    if rows == [] then 1 else rows[|rows| - 1].id + 1
  }

  function NewRow(rows: seq<Row>, conv: string, m: BatchMessage, now: int): Row {
    Row(NextId(rows), conv, m.role, m.content, m.tool, now, m.speaker)
  }

  function FromUser(conv: string): Row -> bool {
    (row: Row) => row.conv == conv && row.role == USER
  }

  function UserCount(rows: seq<Row>, conv: string): nat {
    |Where(rows, FromUser(conv))|
  }

  function Ensured(t: Tables, conv: string, title: bytes, now: int): Tables {
    if conv in t.conversations then t
    else t.(conversations := t.conversations[conv := Conversation(title, now, now)])
  }

  /** Appending one message: the first user message names the conversation. */
  function Appended(t: Tables, conv: string, m: BatchMessage, now: int): Tables
    requires conv in t.conversations
  {
    var rows := t.messages + [NewRow(t.messages, conv, m, now)];
    var c := t.conversations[conv].(updated := now);
    var named := if m.role == USER && UserCount(rows, conv) == 1 then c.(title := TitleOf(m.content)) else c;
    Tables(t.conversations[conv := named], rows)
  }

  function AppendedAll(t: Tables, conv: string, ms: seq<BatchMessage>, now: int): (r: Tables)
    requires conv in t.conversations
    ensures conv in r.conversations
    decreases |ms|
  {
    if ms == [] then t else Appended(AppendedAll(t, conv, ms[..|ms| - 1], now), conv, ms[|ms| - 1], now)
  }

  lemma AppendedSound(t: Tables, conv: string, m: BatchMessage, now: int)
    requires Sound(t) && conv in t.conversations
    ensures Sound(Appended(t, conv, m, now))
  {
  }

  lemma {:induction false} AppendedAllSound(t: Tables, conv: string, ms: seq<BatchMessage>, now: int)
    requires Sound(t) && conv in t.conversations
    ensures Sound(AppendedAll(t, conv, ms, now))
    decreases |ms|
  {
    if ms != [] {
      AppendedAllSound(t, conv, ms[..|ms| - 1], now);
      AppendedSound(AppendedAll(t, conv, ms[..|ms| - 1], now), conv, ms[|ms| - 1], now);
    }
  }

  // ---------------------------------------------------------------- what a write leaves behind

  /** The row holds the message, under this conversation and clock reading. */
  predicate Holds(row: Row, conv: string, m: BatchMessage, now: int) {
    && row.conv == conv && row.ts == now
    && row.role == m.role && row.content == m.content && row.tool == m.tool && row.speaker == m.speaker
  }

  ghost predicate HasUserRow(rows: seq<Row>, conv: string) {
    exists row :: row in rows && row.conv == conv && row.role == "user"
  }

  /** The old rows are as they were, and the messages follow them in order, each under an id
      greater than all before it. */
  ghost predicate RowsAdded(before: seq<Row>, after: seq<Row>, conv: string, ms: seq<BatchMessage>, now: int) {
    && |after| == |before| + |ms| && after[..|before|] == before
    && (forall i :: 0 <= i < |ms| ==> Holds(after[|before| + i], conv, ms[i], now))
    && (forall i, j :: 0 <= i < j < |after| && |before| <= j ==> after[i].id < after[j].id)
  }

  /** The title after the messages: of the first user message ever, cut to size. */
  ghost predicate Titled(title: bytes, prior: bytes, before: seq<Row>, conv: string, ms: seq<BatchMessage>) {
    if !HasUserRow(before, conv) && exists i :: 0 <= i < |ms| && ms[i].role == "user" then
      exists i :: 0 <= i < |ms| && ms[i].role == "user" && (forall j :: 0 <= j < i ==> ms[j].role != "user")
                  && title == TitleOf(ms[i].content)
    else title == prior
  }

  /** Nothing else of the conversations changes. */
  ghost predicate OnlyConversation(before: Tables, after: Tables, conv: string) {
    && after.conversations.Keys == before.conversations.Keys + {conv}
    && forall c :: c in before.conversations && c != conv ==> after.conversations[c] == before.conversations[c]
  }

  /** Everything a batch of messages leaves behind. */
  ghost predicate Added(before: Tables, after: Tables, conv: string, ms: seq<BatchMessage>, now: int) {
    && conv in before.conversations
    && RowsAdded(before.messages, after.messages, conv, ms, now)
    && OnlyConversation(before, after, conv)
    && var was, here := before.conversations[conv], after.conversations[conv];
    && here.created == was.created
    && here.updated == (if ms == [] then was.updated else now)
    && Titled(here.title, was.title, before.messages, conv, ms)
  }

  lemma UserCountIff(rows: seq<Row>, conv: string)
    ensures UserCount(rows, conv) == 0 <==> !HasUserRow(rows, conv)
  {
    var users := Where(rows, FromUser(conv));
    if users != [] {
      assert users[0] in users;
    }
  }

  lemma RowsAddedOne(before: seq<Row>, conv: string, ms: seq<BatchMessage>, rows: seq<Row>, m: BatchMessage, now: int)
    requires RowsAdded(before, rows, conv, ms, now) && Ascending(rows)
    ensures RowsAdded(before, rows + [NewRow(rows, conv, m, now)], conv, ms + [m], now)
  {
    var row := NewRow(rows, conv, m, now);
    var after := rows + [row];
    assert forall i :: 0 <= i < |rows| ==> after[i] == rows[i] && rows[i].id < row.id;
    assert after[..|before|] == rows[..|before|];
    forall i | 0 <= i < |ms + [m]|
      ensures Holds(after[|before| + i], conv, (ms + [m])[i], now)
    {
      if i < |ms| {
        assert after[|before| + i] == rows[|before| + i];
      } else {
        assert after[|before| + i] == row;
      }
    }
  }

  /** Where the user's messages are after some of a batch. */
  lemma UsersAfter(before: seq<Row>, conv: string, ms: seq<BatchMessage>, rows: seq<Row>, now: int)
    requires RowsAdded(before, rows, conv, ms, now)
    ensures HasUserRow(rows, conv) <==> HasUserRow(before, conv) || exists i :: 0 <= i < |ms| && ms[i].role == "user"
  {
    assert forall i :: 0 <= i < |before| ==> rows[i] == rows[..|before|][i];
    if HasUserRow(rows, conv) {
      var row :| row in rows && row.conv == conv && row.role == "user";
      var k :| 0 <= k < |rows| && rows[k] == row;
      if k < |before| {
        assert row in before;
      } else {
        assert Holds(rows[|before| + (k - |before|)], conv, ms[k - |before|], now);
      }
    }
    if HasUserRow(before, conv) {
      var row :| row in before && row.conv == conv && row.role == "user";
      var k :| 0 <= k < |before| && before[k] == row;
      assert rows[k] == row;
    }
    if exists i :: 0 <= i < |ms| && ms[i].role == "user" {
      var i :| 0 <= i < |ms| && ms[i].role == "user";
      assert Holds(rows[|before| + i], conv, ms[i], now);
    }
  }

  lemma TitledOne(title: bytes, prior: bytes, before: seq<Row>, conv: string, ms: seq<BatchMessage>, m: BatchMessage)
    requires Titled(title, prior, before, conv, ms)
    ensures
      var first := m.role == "user" && !HasUserRow(before, conv) && forall i :: 0 <= i < |ms| ==> ms[i].role != "user";
      Titled(if first then TitleOf(m.content) else title, prior, before, conv, ms + [m])
  {
    hide HasUserRow, TitleOf;
    var all := ms + [m];
    assert forall i :: 0 <= i < |ms| ==> all[i] == ms[i];
    assert all[|ms|] == m;
    if !HasUserRow(before, conv) && exists i :: 0 <= i < |ms| && ms[i].role == "user" {
      var i :| 0 <= i < |ms| && ms[i].role == "user" && (forall j :: 0 <= j < i ==> ms[j].role != "user")
               && title == TitleOf(ms[i].content);
      assert all[i].role == "user";
    }
  }

  lemma NothingAdded(t: Tables, conv: string, now: int)
    requires Sound(t) && conv in t.conversations
    ensures Added(t, t, conv, [], now)
  {
  }

  lemma {:induction false} AppendedAllAdds(t: Tables, conv: string, ms: seq<BatchMessage>, now: int)
    requires Sound(t) && conv in t.conversations
    ensures Added(t, AppendedAll(t, conv, ms, now), conv, ms, now)
    decreases |ms|
  {
    hide Sound, Added, Appended;
    if ms == [] {
      NothingAdded(t, conv, now);
    } else {
      var front, m := ms[..|ms| - 1], ms[|ms| - 1];
      assert ms == front + [m];
      AppendedAllAdds(t, conv, front, now);
      AppendedAllSound(t, conv, front, now);
      AddedOne(t, AppendedAll(t, conv, front, now), conv, front, m, now);
    }
  }

  lemma AddedOne(t: Tables, mid: Tables, conv: string, ms: seq<BatchMessage>, m: BatchMessage, now: int)
    requires Added(t, mid, conv, ms, now) && Sound(mid) && conv in mid.conversations
    ensures Added(t, Appended(mid, conv, m, now), conv, ms + [m], now)
  {
    hide RowsAdded, Titled, HasUserRow, NewRow, UserCount, Holds, TitleOf;
    RowsAddedOne(t.messages, conv, ms, mid.messages, m, now);
    UsersAfter(t.messages, conv, ms, mid.messages, now);
    UserCountIff(mid.messages, conv);
    NewRowRole(mid.messages, conv, m, now);
    CountOneMore(mid.messages, NewRow(mid.messages, conv, m, now), conv);
    TitledOne(mid.conversations[conv].title, t.conversations[conv].title, t.messages, conv, ms, m);
  }

  lemma NewRowRole(rows: seq<Row>, conv: string, m: BatchMessage, now: int)
    ensures NewRow(rows, conv, m, now).role == m.role && NewRow(rows, conv, m, now).conv == conv
  {
  }

  // ---------------------------------------------------------------- reading

  function Shown(rows: seq<Row>): (r: seq<StoredMessage>)
    ensures |r| == |rows|
    ensures forall i :: 0 <= i < |rows| ==> r[i] == StoredMessage(rows[i].role, rows[i].content, rows[i].speaker)
  {
    seq(|rows|, i requires 0 <= i < |rows| => StoredMessage(rows[i].role, rows[i].content, rows[i].speaker))
  }

  /** What a model is shown: role and content of the last `limit` messages. */
  function Recent(rows: seq<Row>, conv: string, limit: nat): seq<(string, bytes)> {
    var last := Last(Ordered(rows, conv), limit);
    seq(|last|, i requires 0 <= i < |last| => (last[i].role, last[i].content))
  }

  // ---------------------------------------------------------------- pruning

  function NotOlder(cutoff: int): Row -> bool {
    (row: Row) => row.ts >= cutoff
  }

  function Cutoff(now: int, days: nat): int {
    now - days * DAY_MS
  }

  function Conversations(rows: seq<Row>): set<string> {
    set row | row in rows :: row.conv
  }

  /** The first pass: drop old messages, then the conversations left without any. */
  function Aged(t: Tables, now: int, days: nat): Tables {
    if days == 0 then t
    else
      var rows := Where(t.messages, NotOlder(Cutoff(now, days)));
      Tables(map c | c in t.conversations && c in Conversations(rows) :: t.conversations[c], rows)
  }

  /** Among the newest `n` of its conversation. */
  function AmongNewest(rows: seq<Row>, n: nat): Row -> bool {
    (row: Row) => row.id in Ids(Newest(rows, row.conv, n))
  }

  /** The second pass: drop what is not among the newest `n` of its conversation. */
  function Capped(rows: seq<Row>, n: nat): seq<Row> {
    if n == 0 then rows else Where(rows, AmongNewest(rows, n))
  }

  function Pruned(t: Tables, now: int, days: nat, n: nat): Tables {
    var aged := Aged(t, now, days);
    aged.(messages := Capped(aged.messages, n))
  }

  lemma AgedSound(t: Tables, now: int, days: nat)
    requires Sound(t)
    ensures Sound(Aged(t, now, days))
  {
    WhereAscending(t.messages, NotOlder(Cutoff(now, days)));
  }

  lemma PrunedSound(t: Tables, now: int, days: nat, n: nat)
    requires Sound(t)
    ensures Sound(Pruned(t, now, days, n))
  {
    AgedSound(t, now, days);
    var rows := Aged(t, now, days).messages;
    WhereAscending(rows, AmongNewest(rows, n));
  }

  lemma CappedOrder(rows: seq<Row>, n: nat, conv: string)
    requires Distinct(rows) && n > 0
    ensures Ordered(Capped(rows, n), conv) == Last(Ordered(rows, conv), n)
  {
    hide Newest, Ordered, Last, Ids;
    OrderedRows(rows, conv);
    OrderedWhere(rows, conv, AmongNewest(rows, n));
    OrderedDistinct(rows, conv);
    NewestIsLast(rows, conv, n);
    WhereLast(Ordered(rows, conv), n, AmongNewest(rows, n));
  }

  lemma OrderedRows(rows: seq<Row>, conv: string)
    ensures forall row :: row in Ordered(rows, conv) <==> row in rows && row.conv == conv
  {
  }

  function Window(rows: seq<Row>, n: nat): seq<Row> {
    if n == 0 then rows else Last(rows, n)
  }

  /** After pruning, a conversation holds exactly the last `n` messages, in order of time,
      of those not older than the cutoff. */
  lemma PruneKeepsWindow(t: Tables, now: int, days: nat, n: nat, conv: string)
    requires Sound(t)
    ensures Ordered(Pruned(t, now, days, n).messages, conv)
         == Window(
              if days == 0 then Ordered(t.messages, conv)
              else Where(Ordered(t.messages, conv), NotOlder(Cutoff(now, days))),
              n)
  {
    var rows := Aged(t, now, days).messages;
    AgedSound(t, now, days);
    OrderedWhere(t.messages, conv, NotOlder(Cutoff(now, days)));
    if n > 0 {
      CappedOrder(rows, n, conv);
    }
  }

  /** Pruning by age leaves exactly the conversations that still have a message, with their
      rows as they were; capping alone leaves every conversation. */
  lemma PruneKeepsConversations(t: Tables, now: int, days: nat, n: nat, conv: string)
    requires Sound(t)
    ensures
      var p := Pruned(t, now, days, n);
      && (conv in p.conversations ==> conv in t.conversations && p.conversations[conv] == t.conversations[conv])
      && (days == 0 ==> p.conversations == t.conversations)
      && (days > 0 ==> (conv in p.conversations <==> Ordered(p.messages, conv) != []))
      && (days > 0 ==> (conv in p.conversations <==>
            exists row :: row in t.messages && row.conv == conv && row.ts >= Cutoff(now, days)))
  {
    hide Ordered;
    var aged := Aged(t, now, days);
    AgedSound(t, now, days);
    CapKeepsConversations(aged.messages, n);
    OrderedRows(Pruned(t, now, days, n).messages, conv);
    SomeOrdered(Pruned(t, now, days, n).messages, conv);
  }

  lemma SomeOrdered(rows: seq<Row>, conv: string)
    ensures Ordered(rows, conv) != [] <==> conv in Conversations(rows)
  {
    hide Ordered;
    OrderedRows(rows, conv);
    var mine := Ordered(rows, conv);
    if mine != [] {
      assert mine[0] in mine;
    }
  }

  lemma AmongItself(rows: seq<Row>, n: nat, row: Row)
    requires row in rows && |Ordered(rows, row.conv)| <= n
    ensures AmongNewest(rows, n)(row)
  {
    NewestIsLast(rows, row.conv, n);
  }

  lemma CapTwice(rows: seq<Row>, n: nat)
    requires Distinct(rows)
    ensures Capped(Capped(rows, n), n) == Capped(rows, n)
  {
    if n > 0 {
      var kept := Capped(rows, n);
      forall row | row in kept
        ensures AmongNewest(kept, n)(row)
      {
        CappedOrder(rows, n, row.conv);
        AmongItself(kept, n, row);
      }
      WhereAll(kept, AmongNewest(kept, n));
    }
  }

  lemma CapKeepsConversations(rows: seq<Row>, n: nat)
    requires Distinct(rows)
    ensures Conversations(Capped(rows, n)) == Conversations(rows)
  {
    if n > 0 {
      forall row | row in rows
        ensures row.conv in Conversations(Capped(rows, n))
      {
        CappedOrder(rows, n, row.conv);
        assert row in Ordered(rows, row.conv);
        assert Ordered(Capped(rows, n), row.conv) != [];
        var other := Ordered(Capped(rows, n), row.conv)[0];
        assert other in Ordered(Capped(rows, n), row.conv);
      }
    }
  }

  lemma AgedAgain(t: Tables, now: int, days: nat, rows: seq<Row>)
    requires Aged(t, now, days) == t
    requires forall row :: row in rows ==> row in t.messages
    requires Conversations(rows) == Conversations(t.messages)
    ensures Aged(t.(messages := rows), now, days) == t.(messages := rows)
  {
    if days > 0 {
      assert forall row :: row in t.messages ==> row in Where(t.messages, NotOlder(Cutoff(now, days)));
      WhereAll(rows, NotOlder(Cutoff(now, days)));
    }
  }

  lemma AgedTwice(t: Tables, now: int, days: nat)
    ensures Aged(Aged(t, now, days), now, days) == Aged(t, now, days)
  {
    if days > 0 {
      WhereAll(Aged(t, now, days).messages, NotOlder(Cutoff(now, days)));
    }
  }

  /** Pruning again at the same time changes nothing. */
  lemma PruneTwice(t: Tables, now: int, days: nat, n: nat)
    requires Sound(t)
    ensures Pruned(Pruned(t, now, days, n), now, days, n) == Pruned(t, now, days, n)
  {
    var aged := Aged(t, now, days);
    AgedSound(t, now, days);
    AgedTwice(t, now, days);
    CapKeepsConversations(aged.messages, n);
    AgedAgain(aged, now, days, Capped(aged.messages, n));
    CapTwice(aged.messages, n);
  }

  /** Capping without aging goes unnoticed by a reader of the last `limit` messages exactly
      when the reader asks for no more than the cap keeps or nothing was over the cap. */
  lemma RecentUnchangedIff(t: Tables, now: int, n: nat, conv: string, limit: nat)
    requires Sound(t)
    ensures Recent(Pruned(t, now, 0, n).messages, conv, limit) == Recent(t.messages, conv, limit)
       <==> n == 0 || limit <= n || |Ordered(t.messages, conv)| <= n
  {
    hide Ordered;
    PruneKeepsWindow(t, now, 0, n, conv);
    LastOfWindow(Ordered(t.messages, conv), n, limit);
  }

  lemma LastOfWindow(rows: seq<Row>, n: nat, limit: nat)
    ensures
      if n == 0 || limit <= n || |rows| <= n then Last(Window(rows, n), limit) == Last(rows, limit)
      else |Last(Window(rows, n), limit)| < |Last(rows, limit)|
  {
  }

  /** A new message is shown last exactly when no message of its conversation is newer than
      the clock. */
  lemma AppendedLastIff(t: Tables, conv: string, m: BatchMessage, now: int)
    requires Sound(t) && conv in t.conversations
    ensures
      var row := NewRow(t.messages, conv, m, now);
      Ordered(Appended(t, conv, m, now).messages, conv) == Ordered(t.messages, conv) + [row]
      <==> forall other :: other in t.messages && other.conv == conv ==> other.ts <= now
  {
    hide Ordered, Sorted, Distinct, Before;
    var row := NewRow(t.messages, conv, m, now);
    var rows := t.messages + [row];
    var before, after := Ordered(t.messages, conv), Ordered(rows, conv);
    AppendedSound(t, conv, m, now);
    OrderedDistinct(t.messages, conv);
    OrderedDistinct(rows, conv);
    OrderedRows(t.messages, conv);
    SortedAppend(before, row);
    OrderedAppend(t.messages, row);
    if Sorted(before + [row]) {
      SortedUnique(after, before + [row]);
    }
  }

  lemma SortedAppend(rows: seq<Row>, row: Row)
    requires Sorted(rows) && forall other :: other in rows ==> other.id < row.id
    ensures Sorted(rows + [row]) <==> forall other :: other in rows ==> other.ts <= row.ts
  {
    var all := rows + [row];
    if Sorted(all) {
      forall other | other in rows
        ensures other.ts <= row.ts
      {
        var i :| 0 <= i < |rows| && rows[i] == other;
        assert all[i] == other && all[|rows|] == row;
      }
    }
  }

  // ---------------------------------------------------------------- when a reader does notice

  function Said(id: nat, ts: int): Row {
    Row(id, "home", USER, [], None, ts, None)
  }

  /** A conversation capped to one message, read two messages deep. */
  lemma CapNoticed()
    ensures exists t, now, n, conv, limit ::
      Sound(t) && Recent(Pruned(t, now, 0, n).messages, conv, limit) != Recent(t.messages, conv, limit)
  {
    var rows := [Said(1, 0), Said(2, 0)];
    var t := Tables(map["home" := Conversation([], 0, 0)], rows);
    WhereAll(rows, InConversation("home"));
    SameRows(Sort(rows), rows);
    assert Sound(t);
    RecentUnchangedIff(t, 0, 1, "home", 2);
  }

  /** A message appended after the clock went back. */
  lemma ClockWentBack()
    ensures exists t, conv, m, now ::
      && Sound(t) && conv in t.conversations
      && Ordered(Appended(t, conv, m, now).messages, conv)
           != Ordered(t.messages, conv) + [NewRow(t.messages, conv, m, now)]
  {
    hide Ordered, Appended, NewRow;
    var t := Tables(map["home" := Conversation([], 5, 5)], [Said(1, 5)]);
    var m := BatchMessage(USER, [], None, None);
    assert Sound(t) && Said(1, 5) in t.messages;
    AppendedLastIff(t, "home", m, 3);
  }

  lemma OrderedAppend(rows: seq<Row>, row: Row)
    ensures multiset(Ordered(rows + [row], row.conv)) == multiset(Ordered(rows, row.conv) + [row])
  {
    WhereAppend(rows, [row], InConversation(row.conv));
    assert Where([row], InConversation(row.conv)) == [row] by {
      WhereAll([row], InConversation(row.conv));
    }
  }

  // ---------------------------------------------------------------- the store

  class ConversationStore {
    var conversations: map<string, Conversation>
    var messages: seq<Row>

    ghost function State(): Tables
      reads this
    {
      Tables(conversations, messages)
    }

    constructor ()
      ensures State() == Tables(map[], []) && Sound(State())
    {
      conversations := map[];
      messages := [];
    }

    method Ensure(conv: string, title: bytes, now: int)
      requires Sound(State())
      modifies this
      ensures State() == Ensured(old(State()), conv, title, now) && Sound(State())
      ensures messages == old(messages)
      ensures conversations
           == if conv in old(conversations) then old(conversations)
              else old(conversations)[conv := Conversation(title, now, now)]
    {
      if conv !in conversations {
        conversations := conversations[conv := Conversation(title, now, now)];
      }
    }

    /** Insert a row under the next id; a row of no conversation breaks the foreign key. */
    method InsertMessage(conv: string, m: BatchMessage, now: int) returns (r: Result<(), StoreError>)
      modifies this`messages
      ensures r == if conv in conversations then Ok(()) else Err(NoSuchConversation)
      ensures messages == if r.Ok? then old(messages) + [NewRow(old(messages), conv, m, now)] else old(messages)
    {
      if conv !in conversations {
        return Err(NoSuchConversation);
      }
      messages := messages + [NewRow(messages, conv, m, now)];
      return Ok(());
    }

    /** The UPDATE of a conversation's row, if there is one. */
    method UpdateConversation(conv: string, title: Option<bytes>, now: int)
      modifies this`conversations
      ensures conv !in old(conversations) ==> conversations == old(conversations)
      ensures conv in old(conversations) ==>
        var c := old(conversations)[conv].(updated := now);
        conversations == old(conversations)[conv := if title.Some? then c.(title := title.value) else c]
    {
      if conv in conversations {
        var c := conversations[conv].(updated := now);
        conversations := conversations[conv := if title.Some? then c.(title := title.value) else c];
      }
    }

    method MakeTitle(content: bytes) returns (title: bytes)
      ensures title == TitleOf(content)
    {
      if |content| > TITLE_MAX {
        var front := TruncateAtCharBoundary(content, TITLE_KEPT);
        title := front + ELLIPSIS;
      } else {
        title := content;
      }
    }

    method Append(conv: string, m: BatchMessage, now: int) returns (r: Result<(), StoreError>)
      requires Sound(State())
      modifies this
      ensures Sound(State())
      ensures r == if conv in old(conversations) then Ok(()) else Err(NoSuchConversation)
      ensures State() == if r.Ok? then Appended(old(State()), conv, m, now) else old(State())
      ensures r.Ok? ==> Added(old(State()), State(), conv, [m], now)
    {
      r := InsertMessage(conv, m, now);
      if r.Err? {
        return;
      }
      AppendedSound(old(State()), conv, m, now);
      OneAdded(old(State()), conv, m, now);
      var count := UserCount(messages, conv);
      if count == 1 && m.role == USER {
        var title := MakeTitle(m.content);
        UpdateConversation(conv, Some(title), now);
      } else {
        UpdateConversation(conv, None, now);
      }
    }

    /** The whole batch in one transaction: the same tables as ensuring the conversation and
        then appending the messages one at a time, all at this clock reading. */
    method EnsureAndAppendBatch(conv: string, title: bytes, ms: seq<BatchMessage>, now: int)
      requires Sound(State())
      modifies this
      ensures Sound(State())
      ensures State() == AppendedAll(Ensured(old(State()), conv, title, now), conv, ms, now)
      ensures
        var start := old(State()).(
          conversations := if conv in old(conversations) then old(conversations)
                           else old(conversations)[conv := Conversation(title, now, now)]);
        Added(start, State(), conv, ms, now)
    {
      hide AppendedAll, Where, Ascending, Added;
      Ensure(conv, title, now);
      ghost var start := State();
      var priorUserCount := UserCount(messages, conv);
      var newTitle: Option<bytes> := None;
      NothingAppended(start, conv, now);
      for i := 0 to |ms|
        invariant conversations == start.conversations
        invariant InBatch(start, conv, ms[..i], now, messages, priorUserCount, newTitle)
      {
        var m := ms[i];
        ghost var was, count, named := messages, priorUserCount, newTitle;
        var r := InsertMessage(conv, m, now);
        if m.role == USER {
          priorUserCount := priorUserCount + 1;
          if priorUserCount == 1 {
            var title := MakeTitle(m.content);
            newTitle := Some(title);
          }
        }
        BatchStep(start, conv, ms[..i], m, now, was, count, named);
        assert ms[..i + 1] == ms[..i] + [m];
      }
      assert ms[..|ms|] == ms;
      AppendedAllSound(start, conv, ms, now);
      AppendedAllAdds(start, conv, ms, now);
      if newTitle.Some? || ms != [] {
        UpdateConversation(conv, newTitle, now);
      }
    }

    /** Shows the one sequence that holds exactly the conversation's rows in order of time. */
    method GetMessages(conv: string) returns (r: seq<StoredMessage>)
      requires Sound(State())
      ensures exists rows :: InOrder(rows, messages, conv) && r == Shown(rows)
      ensures forall rows :: InOrder(rows, messages, conv) ==> r == Shown(rows)
    {
      forall rows
        ensures InOrder(rows, messages, conv) <==> rows == Ordered(messages, conv)
      {
        InOrderIff(rows, messages, conv);
      }
      r := Shown(Ordered(messages, conv));
    }

    /** The newest messages are selected newest first, then put back in order of time. */
    method GetRecent(conv: string, limit: nat) returns (r: seq<(string, bytes)>)
      requires Sound(State())
      ensures r == Recent(messages, conv, limit)
    {
      NewestInOrder(messages, conv, limit);
      var rows := Sort(Newest(messages, conv, limit));
      r := seq(|rows|, i requires 0 <= i < |rows| => (rows[i].role, rows[i].content));
    }

    /** Delete a conversation's messages that are not among its newest `n`. */
    method TrimConversation(conv: string, n: nat) returns (deleted: nat)
      modifies this`messages
      ensures messages == Where(old(messages), Trimmed(old(messages), conv, n))
      ensures deleted == |old(messages)| - |messages|
    {
      var kept := Where(messages, Trimmed(messages, conv, n));
      deleted := |messages| - |kept|;
      messages := kept;
    }

    method PruneOldTurns(now: int, days: nat, n: nat) returns (deleted: nat)
      requires Sound(State())
      modifies this
      ensures Sound(State())
      ensures State() == Pruned(old(State()), now, days, n)
      ensures deleted == |old(messages)| - |messages|
    {
      deleted := 0;
      PrunedSound(State(), now, days, n);
      AgedSound(State(), now, days);
      if days > 0 {
        var kept := Where(messages, NotOlder(Cutoff(now, days)));
        deleted := |messages| - |kept|;
        messages := kept;
        conversations := map c | c in conversations && c in Conversations(kept) :: conversations[c];
      }
      if n > 0 {
        var trimmed := CapAll(n);
        deleted := deleted + trimmed;
      }
    }

    /** Trim each conversation that holds more than `n` messages, in any order. */
    method CapAll(n: nat) returns (deleted: nat)
      requires Sound(State()) && n > 0
      modifies this`messages
      ensures messages == Capped(old(messages), n)
      ensures deleted == |old(messages)| - |messages|
    {
      hide Where, CappedFor, Ascending, Trimmed, AmongNewest;
      deleted := 0;
      ghost var rows := messages;
      var overLimit := set c | c in conversations && |Where(messages, InConversation(c))| > n;
      ghost var done: set<string> := {};
      NoneDone(rows, n);
      while overLimit != {}
        invariant messages == Where(rows, CappedFor(rows, done, n))
        invariant overLimit !! done
        invariant forall row :: row in rows ==>
          row.conv in overLimit + done || |Where(rows, InConversation(row.conv))| <= n
        invariant deleted == |rows| - |messages|
        decreases |overLimit|
      {
        var c :| c in overLimit;
        CapOne(rows, done, c, n);
        var d := TrimConversation(c, n);
        deleted := deleted + d;
        overLimit := overLimit - {c};
        done := done + {c};
      }
      CapDone(rows, done, n);
    }
  }

  // ---------------------------------------------------------------- inside the methods

  lemma OneAdded(t: Tables, conv: string, m: BatchMessage, now: int)
    requires Sound(t) && conv in t.conversations
    ensures Added(t, Appended(t, conv, m, now), conv, [m], now)
  {
    hide Added, Appended;
    AppendedAllAdds(t, conv, [m], now);
    OneMore(t, conv, [], m, now);
    assert [] + [m] == [m];
  }

  /** What the batch holds after some messages: the stepwise rows, and whether a first user
      message came by. */
  ghost predicate InBatch(
    start: Tables, conv: string, ms: seq<BatchMessage>, now: int, rows: seq<Row>, users: nat, title: Option<bytes>)
  {
    conv in start.conversations &&
    var t := AppendedAll(start, conv, ms, now);
    && t.messages == rows
    && users == UserCount(rows, conv)
    && (ms == [] ==> title.None? && t == start)
    && (ms != [] ==>
          var c := start.conversations[conv].(updated := now);
          t.conversations == start.conversations[conv := if title.Some? then c.(title := title.value) else c])
    && (title.Some? ==> users >= 1)
  }

  lemma NothingAppended(start: Tables, conv: string, now: int)
    requires conv in start.conversations
    ensures InBatch(start, conv, [], now, start.messages, UserCount(start.messages, conv), None)
  {
  }

  lemma OneMore(start: Tables, conv: string, ms: seq<BatchMessage>, m: BatchMessage, now: int)
    requires conv in start.conversations
    ensures AppendedAll(start, conv, ms + [m], now) == Appended(AppendedAll(start, conv, ms, now), conv, m, now)
  {
    assert (ms + [m])[..|ms|] == ms;
  }

  lemma CountOneMore(rows: seq<Row>, row: Row, conv: string)
    requires row.conv == conv
    ensures UserCount(rows + [row], conv) == UserCount(rows, conv) + if row.role == USER then 1 else 0
  {
    WhereAppend(rows, [row], FromUser(conv));
    if row.role == USER {
      WhereAll([row], FromUser(conv));
    } else {
      WhereNone([row], FromUser(conv));
    }
  }

  lemma BatchStep(
    start: Tables, conv: string, ms: seq<BatchMessage>, m: BatchMessage, now: int,
    rows: seq<Row>, users: nat, title: Option<bytes>)
    requires InBatch(start, conv, ms, now, rows, users, title)
    ensures
      var users' := if m.role == USER then users + 1 else users;
      InBatch(start, conv, ms + [m], now, rows + [NewRow(rows, conv, m, now)], users',
              if m.role == USER && users' == 1 then Some(TitleOf(m.content)) else title)
  {
    hide AppendedAll, UserCount, NextId;
    var row := NewRow(rows, conv, m, now);
    OneMore(start, conv, ms, m, now);
    CountOneMore(rows, row, conv);
  }

  /** The rows kept when one conversation is trimmed. */
  function Trimmed(rows: seq<Row>, conv: string, n: nat): Row -> bool {
    var ids := Ids(Newest(rows, conv, n));
    (row: Row) => row.conv != conv || row.id in ids
  }

  /** The rows kept when these conversations are trimmed. */
  function CappedFor(rows: seq<Row>, done: set<string>, n: nat): Row -> bool {
    (row: Row) => row.conv !in done || row.id in Ids(Newest(rows, row.conv, n))
  }

  lemma CapOne(rows: seq<Row>, done: set<string>, conv: string, n: nat)
    requires conv !in done
    ensures
      var current := Where(rows, CappedFor(rows, done, n));
      Where(current, Trimmed(current, conv, n)) == Where(rows, CappedFor(rows, done + {conv}, n))
  {
    hide Newest, Ids, Ordered, Where;
    var current := Where(rows, CappedFor(rows, done, n));
    OrderedRows(rows, conv);
    OrderedWhere(rows, conv, CappedFor(rows, done, n));
    WhereAll(Ordered(rows, conv), CappedFor(rows, done, n));
    SameNewest(current, rows, conv, n);
    WhereWhere(rows, CappedFor(rows, done, n), Trimmed(current, conv, n), CappedFor(rows, done + {conv}, n));
  }

  lemma SameNewest(a: seq<Row>, b: seq<Row>, conv: string, n: nat)
    requires Ordered(a, conv) == Ordered(b, conv)
    ensures Newest(a, conv, n) == Newest(b, conv, n)
  {
  }

  lemma NoneDone(rows: seq<Row>, n: nat)
    ensures Where(rows, CappedFor(rows, {}, n)) == rows
  {
    WhereAll(rows, CappedFor(rows, {}, n));
  }

  /** Conversations within the limit need no trimming. */
  lemma CapDone(rows: seq<Row>, done: set<string>, n: nat)
    requires forall row :: row in rows ==> row.conv in done || |Where(rows, InConversation(row.conv))| <= n
    ensures Where(rows, CappedFor(rows, done, n)) == Where(rows, AmongNewest(rows, n))
  {
    forall row | row in rows
      ensures CappedFor(rows, done, n)(row) == AmongNewest(rows, n)(row)
    {
      if row.conv !in done {
        SameRows(Ordered(rows, row.conv), Where(rows, InConversation(row.conv)));
        AmongItself(rows, n, row);
      }
    }
    WhereAgree(rows, CappedFor(rows, done, n), AmongNewest(rows, n));
  }
}
