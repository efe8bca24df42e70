/** Session keys mapped to conversation ids, with idle expiry and an LRU cap. */
module SessionRegistry {
  import opened Wrappers

  const I64_MIN: int := -0x8000_0000_0000_0000

  datatype Entry = Entry(conversationId: string, lastActive: int)

  type Sessions = map<string, Entry>

  // ---------------------------------------------------------------- order of eviction

  /** Strict lexicographic order: the order a B-tree map iterates its keys in. */
  predicate KeyBefore(a: string, b: string) {
    if b == [] then false
    else if a == [] then true
    else a[0] < b[0] || (a[0] == b[0] && KeyBefore(a[1..], b[1..]))
  }

  lemma {:induction false} KeyOrderTotal(a: string, b: string)
    ensures a != b ==> KeyBefore(a, b) || KeyBefore(b, a)
    ensures !(KeyBefore(a, b) && KeyBefore(b, a))
    ensures !KeyBefore(a, a)
  {
    if a != [] && b != [] {
      KeyOrderTotal(a[1..], b[1..]);
      if a[0] == b[0] && a[1..] == b[1..] {
        assert a == [a[0]] + a[1..];
        assert b == [b[0]] + b[1..];
      }
    }
    if a != [] {
      KeyOrderTotal(a[1..], a[1..]);
    }
  }

  lemma {:induction false} KeyOrderTransitive(a: string, b: string, c: string)
    requires KeyBefore(a, b) && KeyBefore(b, c)
    ensures KeyBefore(a, c)
  {
    if a != [] && a[0] == b[0] && b[0] == c[0] {
      KeyOrderTransitive(a[1..], b[1..], c[1..]);
    }
  }

  /** The keys agree up to a place where the first ends or holds the smaller character. */
  ghost predicate FirstDifference(a: string, b: string, i: nat) {
    i <= |a| && i < |b| && a[..i] == b[..i] && (i == |a| || a[i] < b[i])
  }

  lemma {:induction false} KeyBeforeIff(a: string, b: string)
    ensures KeyBefore(a, b) <==> exists i: nat :: FirstDifference(a, b, i)
  {
    if KeyBefore(a, b) {
      if a == [] || a[0] < b[0] {
        assert FirstDifference(a, b, 0);
      } else {
        KeyBeforeIff(a[1..], b[1..]);
        var i: nat :| FirstDifference(a[1..], b[1..], i);
        assert a[..i + 1] == [a[0]] + a[1..][..i] && b[..i + 1] == [b[0]] + b[1..][..i];
        assert FirstDifference(a, b, i + 1);
      }
    } else if a != [] && b != [] {
      KeyBeforeIff(a[1..], b[1..]);
      forall i: nat | FirstDifference(a, b, i)
        ensures false
      {
        assert a[..i] == b[..i];
        if i > 0 {
          assert a[0] == a[..i][0] == b[..i][0] == b[0];
          assert a[1..][..i - 1] == a[..i][1..] && b[1..][..i - 1] == b[..i][1..];
          assert FirstDifference(a[1..], b[1..], i - 1);
        }
      }
    }
  }

  /** `a` is evicted before `b`: it was active less recently, or ties and iterates first. */
  predicate Older(m: Sessions, a: string, b: string)
    requires a in m && b in m
  {
    m[a].lastActive < m[b].lastActive
    || (m[a].lastActive == m[b].lastActive && KeyBefore(a, b))
  }

  lemma OlderTotal(m: Sessions, a: string, b: string)
    requires a in m && b in m && a != b
    ensures Older(m, a, b) <==> !Older(m, b, a)
  {
    KeyOrderTotal(a, b);
  }

  lemma OlderTransitive(m: Sessions, a: string, b: string, c: string)
    requires a in m && b in m && c in m && Older(m, a, b) && Older(m, b, c)
    ensures Older(m, a, c)
  {
    if m[a].lastActive == m[c].lastActive {
      KeyOrderTransitive(a, b, c);
    }
  }

  ghost predicate IsOldest(m: Sessions, key: string) {
    key in m && forall k :: k in m && k != key ==> Older(m, key, k)
  }

  lemma OldestUnique(m: Sessions, a: string, b: string)
    requires IsOldest(m, a) && IsOldest(m, b)
    ensures a == b
  {
    if a != b {
      OlderTotal(m, a, b);
    }
  }

  lemma {:induction false} OldestAmong(m: Sessions, keys: set<string>) returns (key: string)
    requires keys != {} && keys <= m.Keys
    ensures key in keys && forall k :: k in keys && k != key ==> Older(m, key, k)
  {
    var first :| first in keys;
    var rest := keys - {first};
    assert keys == rest + {first};
    if rest == {} {
      return first;
    }
    var other := OldestAmong(m, rest);
    OlderTotal(m, first, other);
    if Older(m, first, other) {
      forall k | k in rest && k != other ensures Older(m, first, k) {
        OlderTransitive(m, first, other, k);
      }
      key := first;
    } else {
      key := other;
    }
  }

  ghost function Oldest(m: Sessions): (key: string)
    requires m != map[]
    ensures IsOldest(m, key)
  {
    var witnessed := exists k :: IsOldest(m, k);
    assert witnessed by {
      var w :| w in m;
      var k := OldestAmong(m, m.Keys);
      assert IsOldest(m, k);
    }
    var k :| IsOldest(m, k);
    k
  }

  // ---------------------------------------------------------------- what the operations do

  function SaturatingSub(a: int, b: int): int {
    if a - b < I64_MIN then I64_MIN else a - b
  }

  function Unexpired(m: Sessions, cutoff: int): Sessions {
    map k | k in m && m[k].lastActive >= cutoff :: m[k]
  }

  function Without(m: Sessions, key: string): Sessions {
    m - {key}
  }

  ghost function MakeRoom(m: Sessions, cap: nat): Sessions
    requires cap >= 1
    decreases |m|
  {
    if |m| < cap then m else MakeRoom(Without(m, Oldest(m)), cap)
  }

  function Touched(m: Sessions, key: string, now: int): Sessions {
    if key in m then m[key := m[key].(lastActive := now)] else m
  }

  ghost function Tracked(m: Sessions, cap: nat, ttl: int, key: string, now: int): Sessions
    requires cap >= 1
  {
    var live := Unexpired(m, SaturatingSub(now, ttl));
    if key in live then Touched(live, key, now)
    else MakeRoom(live, cap)[key := Entry(key, now)]
  }

  lemma UnexpiredIs(before: Sessions, after: Sessions, stale: set<string>, cutoff: int)
    requires stale == set k | k in before && before[k].lastActive < cutoff
    requires after.Keys == before.Keys - stale && forall k :: k in after ==> after[k] == before[k]
    ensures after == Unexpired(before, cutoff)
    ensures |stale| == |before| - |after|
  {
    assert |before.Keys| == |stale| + |before.Keys - stale|;
  }

  // ---------------------------------------------------------------- the registry

  class SessionRegistry {
    var sessions: Sessions
    const maxSessions: nat
    const idleTtl: int

    constructor (maxSessions: nat, idleTtl: int)
      ensures Valid() && sessions == map[]
      ensures this.maxSessions == AtLeastOne(maxSessions)
      ensures this.idleTtl == AtLeastOne(idleTtl)
    {
      this.sessions := map[];
      this.maxSessions := AtLeastOne(maxSessions);
      this.idleTtl := AtLeastOne(idleTtl);
    }

    predicate Valid()
      reads this
    {
      && 1 <= maxSessions && 1 <= idleTtl && |sessions| <= maxSessions
      && forall key :: key in sessions ==> sessions[key].conversationId == key
    }

    function ConversationId(key: string): (id: Option<string>)
      reads this
      ensures id.Some? <==> key in sessions
      ensures id.Some? ==> id.value == sessions[key].conversationId
    {
      if key in sessions then Some(sessions[key].conversationId) else None
    }

    method Touch(key: string, now: int)
      modifies this
      ensures sessions == Touched(old(sessions), key, now)
    {
      if key in sessions {
        sessions := sessions[key := sessions[key].(lastActive := now)];
      }
    }

    method EvictIdle(now: int) returns (count: nat)
      modifies this
      ensures sessions == Unexpired(old(sessions), SaturatingSub(now, idleTtl))
      ensures now - idleTtl >= -0x8000_0000_0000_0000 ==>
        forall key :: key in sessions <==> key in old(sessions) && old(sessions)[key].lastActive >= now - idleTtl
      ensures forall key :: key in sessions ==> sessions[key] == old(sessions)[key]
      ensures count == |old(sessions)| - |sessions|
    {
      hide MakeRoom;
      var cutoff := SaturatingSub(now, idleTtl);
      var stale := set k | k in sessions && sessions[k].lastActive < cutoff;
      count := |stale|;
      var left := stale;
      while left != {}
        invariant left <= stale
        invariant sessions.Keys == old(sessions).Keys - (stale - left)
        invariant forall k :: k in sessions ==> sessions[k] == old(sessions)[k]
        decreases left
      {
        var key :| key in left;
        sessions := sessions - {key};
        left := left - {key};
      }
      UnexpiredIs(old(sessions), sessions, stale, cutoff);
    }

    /** The first entry, in key order, among those least recently active. */
    method OldestKey() returns (oldest: Option<string>)
      ensures oldest.None? <==> sessions == map[]
      ensures oldest.Some? ==> IsOldest(sessions, oldest.value)
    {
      oldest := None;
      var left := sessions.Keys;
      while left != {}
        invariant left <= sessions.Keys
        invariant oldest.None? <==> left == sessions.Keys
        invariant oldest.Some? ==> oldest.value in sessions.Keys - left
        invariant oldest.Some? ==>
          forall k :: k in sessions.Keys - left && k != oldest.value ==> Older(sessions, oldest.value, k)
        decreases left
      {
        var key :| key in left;
        ghost var seen := sessions.Keys - left;
        left := left - {key};
        assert sessions.Keys - left == seen + {key};
        if oldest.None? {
          assert seen == {};
          oldest := Some(key);
        } else if Older(sessions, key, oldest.value) {
          forall k | k in seen && k != oldest.value ensures Older(sessions, key, k) {
            OlderTransitive(sessions, key, oldest.value, k);
          }
          oldest := Some(key);
        } else {
          OlderTotal(sessions, key, oldest.value);
        }
      }
      assert sessions.Keys - left == sessions.Keys;
    }

    method EnforceCap()
      requires maxSessions >= 1
      modifies this
      ensures sessions == MakeRoom(old(sessions), maxSessions)
      ensures |sessions| < maxSessions
    {
      while |sessions| >= maxSessions
        invariant MakeRoom(sessions, maxSessions) == MakeRoom(old(sessions), maxSessions)
        decreases |sessions|
      {
        var oldest := OldestKey();
        if oldest.None? {
          break;
        }
        OldestUnique(sessions, oldest.value, Oldest(sessions));
        sessions := sessions - {oldest.value};
      }
    }

    method Track(id: string, now: int)
      requires Valid()
      modifies this
      ensures Valid()
      ensures sessions == Tracked(old(sessions), maxSessions, idleTtl, id, now)
      ensures id in sessions && sessions[id] == Entry(id, now)
    {
      var _ := EvictIdle(now);
      if id in sessions {
        Touch(id, now);
        return;
      }
      EnforceCap();
      sessions := sessions[id := Entry(id, now)];
    }

    method Resolve(key: string, now: int) returns (id: string)
      requires Valid()
      modifies this
      ensures Valid()
      ensures sessions == Tracked(old(sessions), maxSessions, idleTtl, key, now)
      ensures key in sessions && id == key && sessions[key] == Entry(key, now)
    {
      Track(key, now);
      var found := ConversationId(key);
      id := if found.Some? then found.value else key;
    }
  }

  function AtLeastOne(n: int): (r: int)
    ensures r >= 1 && (n >= 1 ==> r == n) && (n < 1 ==> r == 1)
  {
    if n < 1 then 1 else n
  }

  // ---------------------------------------------------------------- traces

  datatype Op =
    | Track(key: string, now: int)
    | Resolve(key: string, now: int)
    | Touch(key: string, now: int)
    | EvictIdle(now: int)

  /** The entries after a trace of calls on a registry with the given cap and TTL. */
  ghost function After(cap: nat, ttl: int, ops: seq<Op>): Sessions
    requires cap >= 1
  {
    if ops == [] then map[]
    else
      var m := After(cap, ttl, ops[..|ops| - 1]);
      match ops[|ops| - 1]
      case Track(key, now) => Tracked(m, cap, ttl, key, now)
      case Resolve(key, now) => Tracked(m, cap, ttl, key, now)
      case Touch(key, now) => Touched(m, key, now)
      case EvictIdle(now) => Unexpired(m, SaturatingSub(now, ttl))
  }

  lemma FilteredSize(m: Sessions, cutoff: int)
    ensures Unexpired(m, cutoff).Keys <= m.Keys && |Unexpired(m, cutoff)| <= |m|
  {
    SubsetSize(Unexpired(m, cutoff).Keys, m.Keys);
  }

  lemma {:induction false} SubsetSize<T>(a: set<T>, b: set<T>)
    requires a <= b
    ensures |a| <= |b|
    ensures |a| == |b| ==> a == b
  {
    if a != {} {
      var x :| x in a;
      SubsetSize(a - {x}, b - {x});
    }
  }

  /** Under the cap nothing goes; at the cap exactly the oldest entry goes. */
  lemma MakeRoomOnce(m: Sessions, cap: nat)
    requires 1 <= cap && |m| <= cap
    ensures MakeRoom(m, cap) == if |m| < cap then m else Without(m, Oldest(m))
    ensures |MakeRoom(m, cap)| < cap
  {
    if |m| == cap {
      assert |Without(m, Oldest(m))| == |m| - 1;
    }
  }

  lemma {:induction false} WithinCap(cap: nat, ttl: int, ops: seq<Op>)
    requires cap >= 1
    ensures |After(cap, ttl, ops)| <= cap
    ensures forall k :: k in After(cap, ttl, ops) ==> After(cap, ttl, ops)[k].conversationId == k
  {
    if ops != [] {
      var front := ops[..|ops| - 1];
      var m := After(cap, ttl, front);
      WithinCap(cap, ttl, front);
      match ops[|ops| - 1]
      case Track(key, now) => TrackedWithinCap(m, cap, ttl, key, now);
      case Resolve(key, now) => TrackedWithinCap(m, cap, ttl, key, now);
      case Touch(key, now) => assert Touched(m, key, now).Keys == m.Keys;
      case EvictIdle(now) => FilteredSize(m, SaturatingSub(now, ttl));
    }
  }

  lemma InsertSize(m: Sessions, key: string, entry: Entry)
    ensures m[key := entry].Keys == m.Keys + {key}
    ensures |m[key := entry]| == |m| + if key in m then 0 else 1
  {
    assert m[key := entry].Keys == m.Keys + {key};
  }

  lemma TrackedWithinCap(m: Sessions, cap: nat, ttl: int, key: string, now: int)
    requires cap >= 1 && |m| <= cap && forall k :: k in m ==> m[k].conversationId == k
    ensures |Tracked(m, cap, ttl, key, now)| <= cap
    ensures key in Tracked(m, cap, ttl, key, now)
    ensures forall k :: k in Tracked(m, cap, ttl, key, now) ==> Tracked(m, cap, ttl, key, now)[k].conversationId == k
  {
    hide MakeRoom;
    var live := Unexpired(m, SaturatingSub(now, ttl));
    FilteredSize(m, SaturatingSub(now, ttl));
    if key in live {
      InsertSize(live, key, live[key].(lastActive := now));
    } else {
      MakeRoomOnce(live, cap);
      InsertSize(MakeRoom(live, cap), key, Entry(key, now));
    }
  }

  // ---------------------------------------------------------------- inclusion

  ghost predicate SubMap(a: Sessions, b: Sessions) {
    forall k :: k in a ==> k in b && b[k] == a[k]
  }

  /** The smaller registry is a sub-map of the larger and lacks at most one entry. */
  ghost predicate Nested(a: Sessions, b: Sessions, cap: nat) {
    SubMap(a, b) && |a| <= cap && |b| <= cap + 1 && |b| <= |a| + 1
  }

  lemma SubMapKeys(a: Sessions, b: Sessions)
    requires SubMap(a, b)
    ensures a.Keys <= b.Keys && |a| <= |b| && (|a| == |b| ==> a == b)
  {
    SubsetSize(a.Keys, b.Keys);
    if |a| == |b| {
      assert a.Keys == b.Keys;
    }
  }

  lemma NestedUnexpired(a: Sessions, b: Sessions, cap: nat, cutoff: int)
    requires Nested(a, b, cap)
    ensures Nested(Unexpired(a, cutoff), Unexpired(b, cutoff), cap)
  {
    var a', b' := Unexpired(a, cutoff), Unexpired(b, cutoff);
    FilteredSize(a, cutoff);
    FilteredSize(b, cutoff);
    var extra := b.Keys - a.Keys;
    SubMapKeys(a, b);
    assert |extra| == |b.Keys| - |a.Keys|;
    assert b'.Keys <= a'.Keys + extra;
    SubsetSize(b'.Keys, a'.Keys + extra);
    assert |a'.Keys + extra| <= |a'.Keys| + |extra|;
  }

  /** If the full larger registry's victim is in the smaller one, it is the smaller
      one's victim as well. */
  lemma SharedVictim(a: Sessions, b: Sessions)
    requires SubMap(a, b) && b != map[] && Oldest(b) in a
    ensures a != map[] && Oldest(a) == Oldest(b)
  {
    assert IsOldest(a, Oldest(b));
    OldestUnique(a, Oldest(a), Oldest(b));
  }

  /** Full, a registry loses one entry; otherwise none. */
  lemma MakeRoomSize(m: Sessions, cap: nat)
    requires 1 <= cap && |m| <= cap
    ensures |MakeRoom(m, cap)| == if |m| < cap then |m| else cap - 1
  {
    MakeRoomOnce(m, cap);
    if |m| == cap {
      WithoutSize(m, Oldest(m));
    }
  }

  lemma WithoutKeepsSubMap(a: Sessions, b: Sessions, key: string)
    requires SubMap(a, b)
    ensures SubMap(Without(a, key), Without(b, key)) && SubMap(Without(a, key), b)
    ensures key !in a ==> SubMap(a, Without(b, key))
  {
  }

  lemma NestedRooms(a: Sessions, b: Sessions, cap: nat)
    requires cap >= 1 && Nested(a, b, cap)
    ensures SubMap(MakeRoom(a, cap), MakeRoom(b, cap + 1))
  {
    MakeRoomOnce(a, cap);
    MakeRoomOnce(b, cap + 1);
    hide MakeRoom, Oldest, SubMap, Without;
    if |b| == cap + 1 {
      WithoutKeepsSubMap(a, b, Oldest(b));
      if Oldest(b) in a {
        SharedVictim(a, b);
      } else {
        WithoutKeepsSubMap(a, Without(b, Oldest(b)), Oldest(a));
      }
    } else if |a| == cap {
      WithoutKeepsSubMap(a, b, Oldest(a));
    }
  }

  lemma NestedMakeRoom(a: Sessions, b: Sessions, cap: nat)
    requires cap >= 1 && Nested(a, b, cap)
    ensures
      var a', b' := MakeRoom(a, cap), MakeRoom(b, cap + 1);
      SubMap(a', b') && |a'| < cap && |b'| <= cap && |b'| <= |a'| + 1
  {
    hide MakeRoom, SubMap;
    NestedRooms(a, b, cap);
    MakeRoomSize(a, cap);
    MakeRoomSize(b, cap + 1);
  }

  lemma NestedInsert(a: Sessions, b: Sessions, cap: nat, key: string, now: int)
    requires cap >= 1 && Nested(a, b, cap) && key !in a && key !in b
    ensures Nested(MakeRoom(a, cap)[key := Entry(key, now)], MakeRoom(b, cap + 1)[key := Entry(key, now)], cap)
  {
    hide MakeRoom;
    NestedMakeRoom(a, b, cap);
    var a', b' := MakeRoom(a, cap), MakeRoom(b, cap + 1);
    MakeRoomShrinks(a, cap);
    MakeRoomShrinks(b, cap + 1);
    InsertSize(a', key, Entry(key, now));
    InsertSize(b', key, Entry(key, now));
  }

  lemma MakeRoomShrinks(m: Sessions, cap: nat)
    requires 1 <= cap && |m| <= cap
    ensures forall k :: k in MakeRoom(m, cap) ==> k in m
  {
    hide Oldest;
    MakeRoomOnce(m, cap);
  }

  lemma NestedRefresh(a: Sessions, b: Sessions, cap: nat, key: string, now: int)
    requires cap >= 1 && Nested(a, b, cap) && key !in a && key in b && b[key].conversationId == key
    ensures Nested(MakeRoom(a, cap)[key := Entry(key, now)], Touched(b, key, now), cap)
  {
    hide MakeRoom, Touched;
    MakeRoomOnce(a, cap);
    var a' := MakeRoom(a, cap);
    InsertSize(a', key, Entry(key, now));
    TouchedSize(b, key, now);
    if |a| == cap {
      WithoutSize(a, Oldest(a));
    }
    RefreshSubMap(a', b, key, now);
  }

  lemma RefreshSubMap(a: Sessions, b: Sessions, key: string, now: int)
    requires SubMap(a, b) && key in b && b[key].conversationId == key
    ensures SubMap(a[key := Entry(key, now)], Touched(b, key, now))
  {
  }

  lemma TouchedSize(m: Sessions, key: string, now: int)
    ensures |Touched(m, key, now)| == |m|
  {
    assert Touched(m, key, now).Keys == m.Keys;
  }

  lemma WithoutSize(m: Sessions, key: string)
    ensures |m| <= |Without(m, key)| + 1
  {
    assert m.Keys <= Without(m, key).Keys + {key};
    SubsetSize(m.Keys, Without(m, key).Keys + {key});
  }

  lemma NestedTouched(a: Sessions, b: Sessions, cap: nat, key: string, now: int)
    requires Nested(a, b, cap)
    ensures Nested(Touched(a, key, now), Touched(b, key, now), cap)
  {
    assert Touched(a, key, now).Keys == a.Keys;
    assert Touched(b, key, now).Keys == b.Keys;
  }

  lemma NestedTracked(a: Sessions, b: Sessions, cap: nat, ttl: int, key: string, now: int)
    requires cap >= 1 && Nested(a, b, cap)
    requires forall k :: k in b ==> b[k].conversationId == k
    ensures Nested(Tracked(a, cap, ttl, key, now), Tracked(b, cap + 1, ttl, key, now), cap)
  {
    var cutoff := SaturatingSub(now, ttl);
    NestedUnexpired(a, b, cap, cutoff);
    var a', b' := Unexpired(a, cutoff), Unexpired(b, cutoff);
    if key in a' {
      NestedTouched(a', b', cap, key, now);
    } else if key in b' {
      NestedRefresh(a', b', cap, key, now);
    } else {
      NestedInsert(a', b', cap, key, now);
    }
  }

  lemma {:induction false} NestedAfter(cap: nat, ttl: int, ops: seq<Op>)
    requires cap >= 1
    ensures Nested(After(cap, ttl, ops), After(cap + 1, ttl, ops), cap)
  {
    if ops != [] {
      var front := ops[..|ops| - 1];
      NestedAfter(cap, ttl, front);
      WithinCap(cap + 1, ttl, front);
      var a, b := After(cap, ttl, front), After(cap + 1, ttl, front);
      match ops[|ops| - 1]
      case Track(key, now) => NestedTracked(a, b, cap, ttl, key, now);
      case Resolve(key, now) => NestedTracked(a, b, cap, ttl, key, now);
      case Touch(key, now) => NestedTouched(a, b, cap, key, now);
      case EvictIdle(now) => NestedUnexpired(a, b, cap, SaturatingSub(now, ttl));
    }
  }

  /** Whatever the calls, the clock readings and the ties, a registry with the smaller
      cap holds a sub-map of what one with the larger cap holds. */
  lemma {:induction false} Inclusion(small: nat, large: nat, ttl: int, ops: seq<Op>)
    requires 1 <= small <= large
    ensures SubMap(After(small, ttl, ops), After(large, ttl, ops))
    decreases large - small
  {
    if small < large {
      NestedAfter(small, ttl, ops);
      Inclusion(small + 1, large, ttl, ops);
    }
  }

  // ---------------------------------------------------------------- exact contents

  /** A trace of `track` and `resolve` calls whose clock strictly increases. */
  ghost predicate Clocked(ops: seq<Op>) {
    && (forall i :: 0 <= i < |ops| ==> (ops[i].Track? || ops[i].Resolve?) && I64_MIN <= ops[i].now)
    && (forall i, j :: 0 <= i < j < |ops| ==> ops[i].now < ops[j].now)
  }

  ghost function Used(ops: seq<Op>): set<string>
    requires Clocked(ops)
  {
    set i | 0 <= i < |ops| :: ops[i].key
  }

  ghost function LastUse(ops: seq<Op>, key: string): int
    requires Clocked(ops) && key in Used(ops)
  {
    if ops[|ops| - 1].key == key then ops[|ops| - 1].now
    else
      UsedFront(ops);
      LastUse(ops[..|ops| - 1], key)
  }

  /** The keys used more recently than `key`. */
  ghost function MoreRecent(ops: seq<Op>, key: string): set<string>
    requires Clocked(ops) && key in Used(ops)
  {
    set k | k in Used(ops) && LastUse(ops, k) > LastUse(ops, key)
  }

  lemma UsedFront(ops: seq<Op>)
    requires Clocked(ops) && ops != []
    ensures Clocked(ops[..|ops| - 1])
    ensures Used(ops) == Used(ops[..|ops| - 1]) + {ops[|ops| - 1].key}
  {
    var front := ops[..|ops| - 1];
    forall k | k in Used(ops) ensures k in Used(front) + {ops[|ops| - 1].key} {
      var i :| 0 <= i < |ops| && ops[i].key == k;
      if i < |front| {
        assert front[i].key == k;
      }
    }
    forall k | k in Used(front) ensures k in Used(ops) {
      var i :| 0 <= i < |front| && front[i].key == k;
      assert ops[i].key == k;
    }
    assert ops[|ops| - 1].key in Used(ops);
  }

  lemma {:induction false} LastUseTime(ops: seq<Op>, key: string) returns (i: nat)
    requires Clocked(ops) && key in Used(ops)
    ensures i < |ops| && ops[i].key == key && ops[i].now == LastUse(ops, key)
  {
    if ops[|ops| - 1].key == key {
      i := |ops| - 1;
    } else {
      UsedFront(ops);
      i := LastUseTime(ops[..|ops| - 1], key);
    }
  }

  lemma LastUseDistinct(ops: seq<Op>, a: string, b: string)
    requires Clocked(ops) && a in Used(ops) && b in Used(ops) && LastUse(ops, a) == LastUse(ops, b)
    ensures a == b
  {
    var i := LastUseTime(ops, a);
    var j := LastUseTime(ops, b);
  }

  /** A use puts its key ahead of every other and leaves the others as they were. */
  lemma UseMovesToFront(ops: seq<Op>, key: string)
    requires Clocked(ops) && ops != [] && key in Used(ops)
    ensures
      var front, last := ops[..|ops| - 1], ops[|ops| - 1];
      if key == last.key then LastUse(ops, key) == last.now && MoreRecent(ops, key) == {}
      else
        && Clocked(front) && key in Used(front) && LastUse(ops, key) == LastUse(front, key) < last.now
        && MoreRecent(ops, key) == MoreRecent(front, key) + {last.key}
  {
    var front, last := ops[..|ops| - 1], ops[|ops| - 1];
    UsedFront(ops);
    forall k | k in Used(front) ensures LastUse(front, k) < last.now {
      var i := LastUseTime(front, k);
      assert front[i] == ops[i];
    }
    assert forall k :: k in Used(ops) ==> LastUse(ops, k) == if k == last.key then last.now else LastUse(front, k);
    if key != last.key {
      assert MoreRecent(ops, key) - {last.key} == MoreRecent(front, key) - {last.key};
    }
  }

  ghost predicate InWindow(ops: seq<Op>, key: string, floor: int, cap: nat)
    requires Clocked(ops)
  {
    key in Used(ops) && LastUse(ops, key) >= floor && |MoreRecent(ops, key)| < cap
  }

  /** `m` holds exactly the keys among the `cap` most recently used whose last use is
      not before `floor`, each mapped to itself and stamped with its last use. */
  ghost predicate Exactly(m: Sessions, ops: seq<Op>, floor: int, cap: nat)
    requires Clocked(ops)
  {
    && (forall k :: k in m <==> InWindow(ops, k, floor, cap))
    && (forall k :: k in m ==> m[k] == Entry(k, LastUse(ops, k)))
  }

  /** Whatever is more recent than a key in the window is in the window too. */
  lemma RecentInWindow(ops: seq<Op>, key: string, floor: int, cap: nat)
    requires Clocked(ops) && InWindow(ops, key, floor, cap)
    ensures forall k :: k in MoreRecent(ops, key) ==> InWindow(ops, k, floor, cap)
  {
    forall k | k in MoreRecent(ops, key) ensures InWindow(ops, k, floor, cap) {
      assert MoreRecent(ops, k) <= MoreRecent(ops, key);
      SubsetSize(MoreRecent(ops, k), MoreRecent(ops, key));
    }
  }

  /** Refreshing a key of the window moves no other key out of it. */
  lemma ExactlyTouched(m: Sessions, ops: seq<Op>, floor: int, cap: nat)
    requires Clocked(ops) && ops != [] && Clocked(ops[..|ops| - 1])
    requires Exactly(m, ops[..|ops| - 1], floor, cap)
    requires ops[|ops| - 1].key in m && floor <= ops[|ops| - 1].now
    ensures Exactly(Touched(m, ops[|ops| - 1].key, ops[|ops| - 1].now), ops, floor, cap)
  {
    var front, last := ops[..|ops| - 1], ops[|ops| - 1];
    UsedFront(ops);
    var m' := Touched(m, last.key, last.now);
    forall k ensures k in m' <==> InWindow(ops, k, floor, cap) {
      WindowAfterTouch(ops, floor, cap, k);
    }
    forall k | k in m' ensures m'[k] == Entry(k, LastUse(ops, k)) {
      UseMovesToFront(ops, k);
    }
  }

  /** Using a key of the window again leaves the same keys in it. */
  lemma WindowAfterTouch(ops: seq<Op>, floor: int, cap: nat, key: string)
    requires Clocked(ops) && ops != [] && Clocked(ops[..|ops| - 1])
    requires InWindow(ops[..|ops| - 1], ops[|ops| - 1].key, floor, cap) && floor <= ops[|ops| - 1].now
    ensures InWindow(ops, key, floor, cap) <==> InWindow(ops[..|ops| - 1], key, floor, cap)
  {
    hide LastUse, MoreRecent;
    var front, last := ops[..|ops| - 1], ops[|ops| - 1];
    UsedFront(ops);
    if key in Used(ops) {
      UseMovesToFront(ops, key);
      if key != last.key {
        if last.key in MoreRecent(front, key) {
          assert MoreRecent(front, key) + {last.key} == MoreRecent(front, key);
        } else {
          BehindTouched(front, key, last.key);
          SubsetSize(MoreRecent(front, key), MoreRecent(front, key) + {last.key});
        }
      }
    }
  }

  lemma BehindTouched(ops: seq<Op>, key: string, touched: string)
    requires Clocked(ops) && key in Used(ops) && touched in Used(ops) && key != touched
    requires touched !in MoreRecent(ops, key)
    ensures |MoreRecent(ops, key) + {touched}| <= |MoreRecent(ops, touched)|
  {
    if LastUse(ops, key) == LastUse(ops, touched) {
      LastUseDistinct(ops, key, touched);
    }
    var newer := MoreRecent(ops, key);
    assert |newer + {touched}| == |newer| + 1 == |newer + {key}|;
    SubsetSize(newer + {key}, MoreRecent(ops, touched));
  }

  /** Making room and inserting a key from outside the window pushes out exactly the
      key that now has `cap` more recent ones. */
  lemma ExactlyInserted(m: Sessions, ops: seq<Op>, floor: int, cap: nat)
    requires cap >= 1 && |m| <= cap
    requires Clocked(ops) && ops != [] && Clocked(ops[..|ops| - 1])
    requires Exactly(m, ops[..|ops| - 1], floor, cap)
    requires ops[|ops| - 1].key !in m && floor <= ops[|ops| - 1].now
    ensures
      var last := ops[|ops| - 1];
      Exactly(MakeRoom(m, cap)[last.key := Entry(last.key, last.now)], ops, floor, cap)
  {
    hide MakeRoom, LastUse, InWindow;
    var last := ops[|ops| - 1];
    MakeRoomOnce(m, cap);
    var room := MakeRoom(m, cap);
    var m' := room[last.key := Entry(last.key, last.now)];
    forall k ensures k in m' <==> InWindow(ops, k, floor, cap) {
      WindowAfterInsertion(m, ops, floor, cap, k);
    }
    forall k | k in m' ensures k in Used(ops) && m'[k] == Entry(k, LastUse(ops, k)) {
      WindowUsed(ops, k, floor, cap);
      UseMovesToFront(ops, k);
    }
  }

  lemma WindowUsed(ops: seq<Op>, key: string, floor: int, cap: nat)
    requires Clocked(ops) && InWindow(ops, key, floor, cap)
    ensures key in Used(ops)
  {
  }

  /** Which keys are in the window after an insertion. */
  lemma WindowAfterInsertion(m: Sessions, ops: seq<Op>, floor: int, cap: nat, key: string)
    requires cap >= 1 && |m| <= cap
    requires Clocked(ops) && ops != [] && Clocked(ops[..|ops| - 1])
    requires Exactly(m, ops[..|ops| - 1], floor, cap)
    requires ops[|ops| - 1].key !in m && floor <= ops[|ops| - 1].now
    ensures InWindow(ops, key, floor, cap) <==>
      key == ops[|ops| - 1].key || (key in m && (|m| < cap || key != Oldest(m)))
  {
    hide Oldest;
    var front, last := ops[..|ops| - 1], ops[|ops| - 1];
    UsedFront(ops);
    if key in Used(ops) {
      UseMovesToFront(ops, key);
      if key != last.key {
        if key in m {
          PushedOut(m, front, floor, cap, key, last.key);
        } else {
          SubsetSize(MoreRecent(front, key), MoreRecent(front, key) + {last.key});
        }
      }
    }
  }

  /** A key of the window has `cap` more recent ones after an insertion exactly when the
      registry is full and the key is its oldest. */
  lemma PushedOut(m: Sessions, ops: seq<Op>, floor: int, cap: nat, key: string, inserted: string)
    requires cap >= 1 && |m| <= cap && Clocked(ops) && Exactly(m, ops, floor, cap)
    requires key in m && inserted !in m
    ensures |MoreRecent(ops, key) + {inserted}| < cap <==> |m| < cap || key != Oldest(m)
  {
    var newer := MoreRecent(ops, key);
    AheadInRegistry(m, ops, floor, cap, key);
    if |m| == cap && key == Oldest(m) {
      AllAheadOfOldest(m, ops, floor, cap);
      SubsetSize(m.Keys - {key}, newer);
    } else {
      FewAhead(m, newer, key, Oldest(m));
    }
  }

  /** Every key more recent than one of the registry is in it, and its oldest key is
      ahead of none. */
  lemma AheadInRegistry(m: Sessions, ops: seq<Op>, floor: int, cap: nat, key: string)
    requires Clocked(ops) && Exactly(m, ops, floor, cap) && key in m
    ensures MoreRecent(ops, key) <= m.Keys - {key} - {Oldest(m)}
  {
    RecentInWindow(ops, key, floor, cap);
    assert IsOldest(m, Oldest(m));
    assert key != Oldest(m) ==> Older(m, Oldest(m), key);
    forall k | k in MoreRecent(ops, key) ensures k in m.Keys - {key} - {Oldest(m)} {
      assert InWindow(ops, k, floor, cap);
      assert k in m;
    }
  }

  lemma FewAhead(m: Sessions, newer: set<string>, key: string, oldest: string)
    requires key in m && oldest in m && newer <= m.Keys - {key} - {oldest}
    ensures |newer| < |m|
    ensures key != oldest ==> |newer| + 1 < |m|
  {
    SubsetSize(newer, m.Keys - {key} - {oldest});
    assert |m.Keys - {key}| == |m| - 1;
  }

  lemma AllAheadOfOldest(m: Sessions, ops: seq<Op>, floor: int, cap: nat)
    requires m != map[] && Clocked(ops) && Exactly(m, ops, floor, cap)
    ensures m.Keys - {Oldest(m)} <= MoreRecent(ops, Oldest(m))
  {
    var key := Oldest(m);
    forall k | k in m.Keys - {key} ensures k in MoreRecent(ops, key) {
      assert Older(m, key, k);
      if LastUse(ops, k) == LastUse(ops, key) {
        LastUseDistinct(ops, k, key);
      }
    }
  }

  /** Expiry narrows the window to the new floor; times never saturate it past one. */
  lemma ExactlyUnexpired(m: Sessions, ops: seq<Op>, floor: int, now: int, ttl: int, cap: nat)
    requires Clocked(ops) && Exactly(m, ops, floor, cap) && floor <= now - ttl
    ensures Exactly(Unexpired(m, SaturatingSub(now, ttl)), ops, now - ttl, cap)
  {
    forall k | k in Used(ops) ensures LastUse(ops, k) >= I64_MIN {
      var i := LastUseTime(ops, k);
    }
  }

  lemma TrackedExactly(m: Sessions, cap: nat, ttl: int, ops: seq<Op>, floor: int)
    requires cap >= 1 && ttl >= 1 && |m| <= cap
    requires Clocked(ops) && ops != [] && Clocked(ops[..|ops| - 1])
    requires Exactly(m, ops[..|ops| - 1], floor, cap) && floor <= ops[|ops| - 1].now - ttl
    ensures
      var last := ops[|ops| - 1];
      Exactly(Tracked(m, cap, ttl, last.key, last.now), ops, last.now - ttl, cap)
  {
    hide Exactly, MakeRoom;
    var front, last := ops[..|ops| - 1], ops[|ops| - 1];
    FilteredSize(m, SaturatingSub(last.now, ttl));
    ExactlyUnexpired(m, front, floor, last.now, ttl, cap);
    if last.key in Unexpired(m, SaturatingSub(last.now, ttl)) {
      ExactlyTouched(Unexpired(m, SaturatingSub(last.now, ttl)), ops, last.now - ttl, cap);
    } else {
      ExactlyInserted(Unexpired(m, SaturatingSub(last.now, ttl)), ops, last.now - ttl, cap);
    }
  }

  /** After any trace of `track` and `resolve` calls with a strictly increasing clock the
      registry holds exactly the `cap` most recently used distinct keys among those last
      used no earlier than now minus the TTL, each mapped to itself. */
  lemma {:induction false} KeepsMostRecent(cap: nat, ttl: int, ops: seq<Op>)
    requires cap >= 1 && ttl >= 1 && Clocked(ops) && ops != []
    ensures Exactly(After(cap, ttl, ops), ops, ops[|ops| - 1].now - ttl, cap)
  {
    hide Tracked;
    var front, last := ops[..|ops| - 1], ops[|ops| - 1];
    var m := After(cap, ttl, front);
    UsedFront(ops);
    WithinCap(cap, ttl, front);
    if front == [] {
      TrackedExactly(m, cap, ttl, ops, last.now - ttl);
    } else {
      KeepsMostRecent(cap, ttl, front);
      TrackedExactly(m, cap, ttl, ops, front[|front| - 1].now - ttl);
    }
  }
}
