/** The lock that serializes chat turns, with its liveness counters. */
module ChatTurnGate {
  import opened Arithmetic
  import opened Wrappers

  const U32_MAX: nat := 0xffff_ffff
  const U64_MAX: nat := 0xffff_ffff_ffff_ffff
  const SECOND: nat := 1_000_000_000

  /** Counters kept beside the lock; times are nanoseconds of a monotonic clock. */
  datatype GateState = GateState(
    waiters: nat,
    inFlight: bool,
    holderSince: Option<int>,
    lastCompleted: Option<int>,
    completedTurns: nat)

  datatype ChatLiveness = ChatLiveness(
    waiters: nat,
    inFlight: bool,
    completedTurns: nat,
    lastTurnAgeSecs: Option<int>,
    currentTurnAgeSecs: Option<int>,
    wedged: bool)

  const IDLE := GateState(0, false, None, None, 0)

  function SaturatingPred(a: nat): nat {
    if a == 0 then 0 else a - 1
  }

  function Elapsed(now: int, since: int): int {
    if now < since then 0 else now - since
  }

  // ---------------------------------------------------------------- counter updates

  /** A waiter guard was created. */
  function Registered(s: GateState): GateState {
    s.(waiters := SaturatingAdd(s.waiters, 1, U32_MAX))
  }

  /** An armed waiter guard was dropped: the wait timed out or was cancelled. */
  function Unregistered(s: GateState): GateState {
    s.(waiters := SaturatingPred(s.waiters))
  }

  /** A waiter became the holder. */
  function Admitted(s: GateState, now: int): GateState {
    s.(waiters := SaturatingPred(s.waiters), inFlight := true, holderSince := Some(now))
  }

  /** A turn guard was dropped. */
  function TurnCompleted(s: GateState, now: int): GateState {
    s.(
      inFlight := false,
      holderSince := None,
      lastCompleted := Some(now),
      completedTurns := SaturatingAdd(s.completedTurns, 1, U64_MAX))
  }

  function Snapshot(s: GateState, wedgeAfter: nat, now: int): ChatLiveness {
    ChatLiveness(
      s.waiters,
      s.inFlight,
      s.completedTurns,
      if s.lastCompleted.Some? then Some(Elapsed(now, s.lastCompleted.value) / SECOND) else None,
      if s.holderSince.Some? then Some(Elapsed(now, s.holderSince.value) / SECOND) else None,
      s.holderSince.Some? && Elapsed(now, s.holderSince.value) >= wedgeAfter)
  }

  /** The counters as the fields the guards update in place. */
  class Counters {
    var waiters: nat
    var inFlight: bool
    var holderSince: Option<int>
    var lastCompleted: Option<int>
    var completedTurns: nat

    constructor ()
      ensures State() == IDLE
    {
      waiters, inFlight, holderSince, lastCompleted, completedTurns := 0, false, None, None, 0;
    }

    function State(): GateState
      reads this
    {
      GateState(waiters, inFlight, holderSince, lastCompleted, completedTurns)
    }

    method NewWaiterGuard()
      modifies this
      ensures State() == Registered(old(State()))
    {
      if waiters < U32_MAX {
        waiters := waiters + 1;
      } else {
        waiters := U32_MAX;
      }
    }

    method DropWaiterGuard(armed: bool)
      modifies this
      ensures State() == if armed then Unregistered(old(State())) else old(State())
    {
      if armed && waiters > 0 {
        waiters := waiters - 1;
      }
    }

    /** The end of `try_acquire` once the lock was taken; its guard is then disarmed. */
    method Admit(now: int)
      modifies this
      ensures State() == Admitted(old(State()), now)
    {
      if waiters > 0 {
        waiters := waiters - 1;
      }
      inFlight := true;
      holderSince := Some(now);
      DropWaiterGuard(false);
    }

    method OnTurnComplete(now: int)
      modifies this
      ensures State() == TurnCompleted(old(State()), now)
    {
      inFlight := false;
      holderSince := None;
      lastCompleted := Some(now);
      if completedTurns < U64_MAX {
        completedTurns := completedTurns + 1;
      } else {
        completedTurns := U64_MAX;
      }
    }

    method TakeSnapshot(wedgeAfter: nat, now: int) returns (view: ChatLiveness)
      ensures view == Snapshot(State(), wedgeAfter, now)
    {
      var current := if holderSince.Some? then Some(Elapsed(now, holderSince.value)) else None;
      var last := if lastCompleted.Some? then Some(Elapsed(now, lastCompleted.value) / SECOND) else None;
      view := ChatLiveness(
        waiters,
        inFlight,
        completedTurns,
        last,
        if current.Some? then Some(current.value / SECOND) else None,
        current.Some? && current.value >= wedgeAfter);
    }
  }

  // ---------------------------------------------------------------- requests around the gate

  /** A request waits for the lock, runs its turn, or has recorded its turn's end and is
      about to release the lock; it is gone afterwards. */
  datatype Stage = Parked(since: int) | Turn(since: int) | Releasing

  datatype Request = Request(id: nat, stage: Stage)

  /** `queue` is the fair lock: its head owns it, the others wait in order.  The fields
      after `clock` record history and steer nothing. */
  datatype System = System(
    gate: GateState,
    queue: seq<Request>,
    clock: int,
    arrived: nat,
    admitted: seq<nat>,
    timedOut: set<nat>,
    cancelled: set<nat>,
    guardsDropped: nat,
    lastDrop: Option<int>)

  const START := System(IDLE, [], 0, 0, [], {}, {}, 0, None)

  /** One atomic step of one request, at time `now`; `i` is a position in the queue. */
  datatype Step =
    | Arrive(now: int)
    | Admit(now: int)
    | TimeOut(i: nat, now: int)
    | Cancel(i: nat, now: int)
    | DropGuard(now: int)
    | Release(now: int)
    | Health(now: int)

  predicate Enabled(busyWait: nat, s: System, step: Step) {
    && s.clock <= step.now
    && match step
       case Arrive(_) => true
       case Admit(_) => s.queue != [] && s.queue[0].stage.Parked?
       // `timeout` polls the lock first, so the owner of the lock does not time out.
       case TimeOut(i, now) => 0 < i < |s.queue| && s.queue[i].stage.Parked? && now - s.queue[i].stage.since >= busyWait
       case Cancel(i, _) => i < |s.queue| && s.queue[i].stage.Parked?
       // Also what cancelling a request in mid-turn does.
       case DropGuard(_) => s.queue != [] && s.queue[0].stage.Turn?
       case Release(_) => s.queue != [] && s.queue[0].stage.Releasing?
       case Health(_) => true
  }

  function Remove(queue: seq<Request>, i: nat): seq<Request>
    requires i < |queue|
  {
    queue[..i] + queue[i + 1..]
  }

  function Apply(busyWait: nat, s: System, step: Step): System
    requires Enabled(busyWait, s, step)
  {
    var t := s.(clock := step.now);
    match step
    case Arrive(now) =>
      t.(gate := Registered(s.gate), queue := s.queue + [Request(s.arrived, Parked(now))], arrived := s.arrived + 1)
    case Admit(now) =>
      t.(
        gate := Admitted(s.gate, now),
        queue := s.queue[0 := s.queue[0].(stage := Turn(now))],
        admitted := s.admitted + [s.queue[0].id])
    case TimeOut(i, _) =>
      t.(gate := Unregistered(s.gate), queue := Remove(s.queue, i), timedOut := s.timedOut + {s.queue[i].id})
    case Cancel(i, _) =>
      t.(gate := Unregistered(s.gate), queue := Remove(s.queue, i), cancelled := s.cancelled + {s.queue[i].id})
    case DropGuard(now) =>
      t.(
        gate := TurnCompleted(s.gate, now),
        queue := s.queue[0 := s.queue[0].(stage := Releasing)],
        guardsDropped := s.guardsDropped + 1,
        lastDrop := Some(now))
    case Release(_) => t.(queue := s.queue[1..])
    case Health(_) => t
  }

  function After(busyWait: nat, run: seq<Step>): Option<System> {
    if run == [] then Some(START)
    else
      var before := After(busyWait, run[..|run| - 1]);
      var step := run[|run| - 1];
      if before.Some? && Enabled(busyWait, before.value, step)
      then Some(Apply(busyWait, before.value, step))
      else None
  }

  // ---------------------------------------------------------------- the invariant

  predicate InTurn(s: System) {
    s.queue != [] && s.queue[0].stage.Turn?
  }

  /** How many requests are parked: all in the queue but an owner already admitted. */
  function ParkedCount(s: System): nat {
    if s.queue != [] && !s.queue[0].stage.Parked? then |s.queue| - 1 else |s.queue|
  }

  /** Only the queue's head is past waiting; ids follow arrival order. */
  ghost predicate QueueOk(s: System) {
    && (forall i :: 0 < i < |s.queue| ==> s.queue[i].stage.Parked?)
    && (forall i :: 0 <= i < |s.queue| ==> s.queue[i].id < s.arrived)
    && (forall i, j :: 0 <= i < j < |s.queue| ==> s.queue[i].id < s.queue[j].id)
    && (forall i :: 0 <= i < |s.queue| && !s.queue[i].stage.Releasing? ==> s.queue[i].stage.since <= s.clock)
  }

  /** Admission follows arrival order and never comes back to a request. */
  ghost predicate AdmissionOk(s: System) {
    && (forall i, j :: 0 <= i < j < |s.admitted| ==> s.admitted[i] < s.admitted[j])
    && (forall i :: 0 <= i < |s.admitted| ==> s.admitted[i] < s.arrived)
    && (forall i, j :: 0 <= i < |s.admitted| && 0 <= j < |s.queue| && s.queue[j].stage.Parked? ==>
          s.admitted[i] < s.queue[j].id)
  }

  ghost predicate Queued(s: System, id: nat) {
    exists i :: 0 <= i < |s.queue| && s.queue[i].id == id
  }

  ghost predicate IsParked(s: System, id: nat) {
    exists i :: 0 <= i < |s.queue| && s.queue[i].id == id && s.queue[i].stage.Parked?
  }

  /** Every arrival is somewhere. */
  ghost predicate PlacedOk(s: System) {
    forall id: nat :: id < s.arrived ==> id in s.admitted || id in s.timedOut || id in s.cancelled || Queued(s, id)
  }

  /** Who has left the queue without being admitted left it once. */
  ghost predicate FatesOk(s: System) {
    && (forall id :: id in s.timedOut ==> id < s.arrived && id !in s.cancelled && id !in s.admitted)
    && (forall id :: id in s.cancelled ==> id < s.arrived && id !in s.admitted)
    && (forall i :: 0 <= i < |s.queue| ==> s.queue[i].id !in s.timedOut && s.queue[i].id !in s.cancelled)
    && (forall i :: 0 <= i < |s.queue| && !s.queue[i].stage.Parked? ==> s.queue[i].id in s.admitted)
  }

  ghost predicate ArrivalsOk(s: System) {
    && s.arrived == ParkedCount(s) + |s.admitted| + |s.timedOut| + |s.cancelled|
    && |s.admitted| == s.guardsDropped + (if InTurn(s) then 1 else 0)
  }

  ghost predicate TurnOk(s: System) {
    && s.gate.inFlight == InTurn(s)
    && s.gate.holderSince == (if InTurn(s) then Some(s.queue[0].stage.since) else None)
    && s.gate.lastCompleted == s.lastDrop
    && s.gate.completedTurns == (if s.guardsDropped > U64_MAX then U64_MAX else s.guardsDropped)
  }

  ghost predicate WaitersOk(s: System) {
    s.gate.waiters <= ParkedCount(s) && s.gate.waiters <= U32_MAX
  }

  ghost predicate CountersOk(s: System) {
    ArrivalsOk(s) && TurnOk(s) && WaitersOk(s)
  }

  ghost predicate Inv(s: System) {
    QueueOk(s) && AdmissionOk(s) && FatesOk(s) && PlacedOk(s) && CountersOk(s)
  }

  lemma RemoveShifts(queue: seq<Request>, i: nat, j: nat)
    requires i < |queue| && j < |queue| - 1
    ensures Remove(queue, i)[j] == queue[if j < i then j else j + 1]
  {
  }

  lemma RemoveQueueKept(s: System, t: System, i: nat)
    requires QueueOk(s) && i < |s.queue| && t.queue == Remove(s.queue, i)
    requires t.arrived == s.arrived && s.clock <= t.clock
    ensures QueueOk(t)
  {
    forall j | 0 <= j < |t.queue| ensures t.queue[j] == s.queue[if j < i then j else j + 1] {
      RemoveShifts(s.queue, i, j);
    }
    hide Remove;
  }

  lemma QueueKept(busyWait: nat, s: System, step: Step)
    requires QueueOk(s) && Enabled(busyWait, s, step)
    ensures QueueOk(Apply(busyWait, s, step))
  {
    hide Remove, Registered, Unregistered, Admitted, TurnCompleted;
    var t := Apply(busyWait, s, step);
    if step.TimeOut? || step.Cancel? {
      RemoveQueueKept(s, t, step.i);
    }
  }

  lemma RemoveAdmissionKept(s: System, t: System, i: nat)
    requires AdmissionOk(s) && i < |s.queue| && t.queue == Remove(s.queue, i)
    requires t.admitted == s.admitted && t.arrived == s.arrived
    ensures AdmissionOk(t)
  {
    forall j | 0 <= j < |t.queue| ensures t.queue[j] == s.queue[if j < i then j else j + 1] {
      RemoveShifts(s.queue, i, j);
    }
    hide Remove;
  }

  lemma AdmissionKept(busyWait: nat, s: System, step: Step)
    requires QueueOk(s) && AdmissionOk(s) && Enabled(busyWait, s, step)
    ensures AdmissionOk(Apply(busyWait, s, step))
  {
    hide Remove, Registered, Unregistered, Admitted, TurnCompleted;
    var t := Apply(busyWait, s, step);
    if step.TimeOut? || step.Cancel? {
      RemoveAdmissionKept(s, t, step.i);
    }
  }

  /** Taking a parked request out of the queue. */
  lemma RemoveFates(s: System, t: System, i: nat)
    requires QueueOk(s) && AdmissionOk(s) && FatesOk(s) && i < |s.queue| && s.queue[i].stage.Parked?
    requires t.queue == Remove(s.queue, i) && t.arrived == s.arrived && t.admitted == s.admitted
    requires || (t.timedOut == s.timedOut + {s.queue[i].id} && t.cancelled == s.cancelled)
             || (t.cancelled == s.cancelled + {s.queue[i].id} && t.timedOut == s.timedOut)
    ensures FatesOk(t)
  {
    forall j | 0 <= j < |t.queue|
      ensures t.queue[j] == s.queue[if j < i then j else j + 1]
    {
      RemoveShifts(s.queue, i, j);
    }
    hide Remove;
  }

  lemma FatesKept(busyWait: nat, s: System, step: Step)
    requires QueueOk(s) && AdmissionOk(s) && FatesOk(s) && Enabled(busyWait, s, step)
    ensures FatesOk(Apply(busyWait, s, step))
  {
    hide Remove, Registered, Unregistered, Admitted, TurnCompleted;
    if step.TimeOut? || step.Cancel? {
      RemoveFates(s, Apply(busyWait, s, step), step.i);
    }
  }

  /** A request still in the queue after a step is found at its old place or one before. */
  lemma StillQueued(busyWait: nat, s: System, step: Step, i: nat)
    requires Enabled(busyWait, s, step) && i < |s.queue|
    requires step.TimeOut? || step.Cancel? ==> step.i != i
    requires step.Release? ==> i > 0
    ensures Queued(Apply(busyWait, s, step), s.queue[i].id)
  {
    hide Queued;
    var t := Apply(busyWait, s, step);
    var j := if step.Release? || ((step.TimeOut? || step.Cancel?) && step.i < i) then i - 1 else i;
    if step.TimeOut? || step.Cancel? {
      RemoveShifts(s.queue, step.i, j);
    }
    assert t.queue[j].id == s.queue[i].id;
    AtPlace(t, j);
  }

  lemma AtPlace(s: System, i: nat)
    requires i < |s.queue|
    ensures Queued(s, s.queue[i].id)
  {
  }

  lemma PlacedKept(busyWait: nat, s: System, step: Step)
    requires FatesOk(s) && PlacedOk(s) && Enabled(busyWait, s, step)
    requires step.Release? ==> s.queue[0].id in s.admitted
    ensures PlacedOk(Apply(busyWait, s, step))
  {
    var t := Apply(busyWait, s, step);
    forall id: nat | id < t.arrived
      ensures id in t.admitted || id in t.timedOut || id in t.cancelled || Queued(t, id)
    {
      if id == s.arrived {
        AtPlace(t, |s.queue|);
      } else if Queued(s, id) {
        var i :| 0 <= i < |s.queue| && s.queue[i].id == id;
        if !((step.TimeOut? || step.Cancel?) && step.i == i) && !(step.Release? && i == 0) {
          StillQueued(busyWait, s, step, i);
        }
      }
    }
  }

  /** One parked request fewer, and the head's turn as it was. */
  lemma RemoveParked(s: System, t: System, i: nat)
    requires QueueOk(s) && i < |s.queue| && s.queue[i].stage.Parked? && t.queue == Remove(s.queue, i)
    ensures ParkedCount(t) == ParkedCount(s) - 1 && InTurn(t) == InTurn(s) && (InTurn(s) ==> t.queue[0] == s.queue[0])
  {
    if |s.queue| > 1 {
      RemoveShifts(s.queue, i, 0);
    }
  }

  lemma OneMore(ids: set<nat>, id: nat)
    requires id !in ids
    ensures |ids + {id}| == |ids| + 1
  {
  }

  lemma FewerParked(s: System, t: System, i: nat)
    requires QueueOk(s) && FatesOk(s) && CountersOk(s) && i < |s.queue| && s.queue[i].stage.Parked?
    requires t.queue == Remove(s.queue, i) && t.gate == Unregistered(s.gate) && t.arrived == s.arrived
    requires t.admitted == s.admitted && t.guardsDropped == s.guardsDropped && t.lastDrop == s.lastDrop
    requires |t.timedOut| + |t.cancelled| == |s.timedOut| + |s.cancelled| + 1
    ensures CountersOk(t)
  {
    RemoveParked(s, t, i);
    hide QueueOk, FatesOk, ParkedCount, InTurn, Remove;
  }

  lemma RemovedCounters(busyWait: nat, s: System, step: Step)
    requires QueueOk(s) && FatesOk(s) && CountersOk(s) && Enabled(busyWait, s, step)
    requires step.TimeOut? || step.Cancel?
    ensures CountersOk(Apply(busyWait, s, step))
  {
    OneMore(s.timedOut, s.queue[step.i].id);
    OneMore(s.cancelled, s.queue[step.i].id);
    hide CountersOk, QueueOk, Remove, Unregistered;
    FewerParked(s, Apply(busyWait, s, step), step.i);
  }

  lemma ArrivalsKept(busyWait: nat, s: System, step: Step)
    requires QueueOk(s) && ArrivalsOk(s) && Enabled(busyWait, s, step) && !step.TimeOut? && !step.Cancel?
    ensures ArrivalsOk(Apply(busyWait, s, step))
  {
  }

  lemma TurnKept(busyWait: nat, s: System, step: Step)
    requires QueueOk(s) && TurnOk(s) && Enabled(busyWait, s, step) && !step.TimeOut? && !step.Cancel?
    ensures TurnOk(Apply(busyWait, s, step))
  {
  }

  lemma WaitersKept(busyWait: nat, s: System, step: Step)
    requires QueueOk(s) && WaitersOk(s) && Enabled(busyWait, s, step) && !step.TimeOut? && !step.Cancel?
    ensures WaitersOk(Apply(busyWait, s, step))
  {
  }

  lemma CountersKept(busyWait: nat, s: System, step: Step)
    requires QueueOk(s) && FatesOk(s) && CountersOk(s) && Enabled(busyWait, s, step)
    ensures CountersOk(Apply(busyWait, s, step))
  {
    hide QueueOk, FatesOk, ArrivalsOk, TurnOk, WaitersOk, Apply;
    if step.TimeOut? || step.Cancel? {
      RemovedCounters(busyWait, s, step);
    } else {
      ArrivalsKept(busyWait, s, step);
      TurnKept(busyWait, s, step);
      WaitersKept(busyWait, s, step);
    }
  }

  lemma InvKept(busyWait: nat, s: System, step: Step)
    requires Inv(s) && Enabled(busyWait, s, step)
    ensures Inv(Apply(busyWait, s, step))
  {
    QueueKept(busyWait, s, step);
    AdmissionKept(busyWait, s, step);
    FatesKept(busyWait, s, step);
    PlacedKept(busyWait, s, step);
    CountersKept(busyWait, s, step);
  }

  lemma {:induction false} InvAfter(busyWait: nat, run: seq<Step>)
    requires After(busyWait, run).Some?
    ensures Inv(After(busyWait, run).value)
  {
    hide Inv, Apply, Enabled;
    if run == [] {
      InvAtStart();
    } else {
      var front := run[..|run| - 1];
      InvAfter(busyWait, front);
      InvKept(busyWait, After(busyWait, front).value, run[|run| - 1]);
    }
  }

  lemma InvAtStart()
    ensures Inv(START)
  {
  }

  // ---------------------------------------------------------------- what runs guarantee

  /** One turn at most, and always by the lock's owner; the counters describe it. */
  lemma CountersTellTheTruth(busyWait: nat, run: seq<Step>)
    requires After(busyWait, run).Some?
    ensures
      var s := After(busyWait, run).value;
      && (forall i :: 0 <= i < |s.queue| && !s.queue[i].stage.Parked? ==> i == 0)
      && (s.gate.inFlight <==> s.queue != [] && s.queue[0].stage.Turn?)
      && (s.guardsDropped <= U64_MAX ==> s.gate.completedTurns == s.guardsDropped)
      && s.gate.lastCompleted == s.lastDrop
      && |s.admitted| == s.guardsDropped + (if s.gate.inFlight then 1 else 0)
  {
    InvAfter(busyWait, run);
  }

  /** `wedged` is reported exactly when a turn has been in flight for `wedgeAfter`. */
  lemma WedgedIff(busyWait: nat, run: seq<Step>, wedgeAfter: nat, now: int)
    requires After(busyWait, run).Some? && After(busyWait, run).value.clock <= now
    ensures
      var s := After(busyWait, run).value;
      Snapshot(s.gate, wedgeAfter, now).wedged <==>
        s.queue != [] && s.queue[0].stage.Turn? && now - s.queue[0].stage.since >= wedgeAfter
  {
    InvAfter(busyWait, run);
  }

  function One(b: bool): nat {
    if b then 1 else 0
  }

  /** Each arrival is exactly one of parked, admitted, timed out and cancelled, nobody else
      is any of these, and the lock is granted in order of arrival. */
  lemma EveryArrivalAccounted(busyWait: nat, run: seq<Step>, id: nat)
    requires After(busyWait, run).Some?
    ensures
      var s := After(busyWait, run).value;
      && One(IsParked(s, id)) + One(id in s.admitted) + One(id in s.timedOut) + One(id in s.cancelled)
           == One(id < s.arrived)
      && s.arrived == ParkedCount(s) + |s.admitted| + |s.timedOut| + |s.cancelled|
      && (forall i, j :: 0 <= i < j < |s.admitted| ==> s.admitted[i] < s.admitted[j])
      && (forall i, j :: 0 <= i < |s.admitted| && 0 <= j < |s.queue| && s.queue[j].stage.Parked? ==>
            s.admitted[i] < s.queue[j].id)
  {
    InvAfter(busyWait, run);
    var s := After(busyWait, run).value;
    if IsParked(s, id) {
      var i :| 0 <= i < |s.queue| && s.queue[i].id == id && s.queue[i].stage.Parked?;
    } else if Queued(s, id) {
      var i :| 0 <= i < |s.queue| && s.queue[i].id == id;
      assert id in s.admitted;
    }
  }

  /** Waiting is bounded: past its budget a parked request has one step of its own left,
      and that step ends the wait by admitting it or timing it out. */
  lemma WaitIsBounded(busyWait: nat, run: seq<Step>, i: nat, now: int)
    requires After(busyWait, run).Some? && After(busyWait, run).value.clock <= now
    requires i < |After(busyWait, run).value.queue| && After(busyWait, run).value.queue[i].stage.Parked?
    requires now - After(busyWait, run).value.queue[i].stage.since >= busyWait
    ensures
      var s := After(busyWait, run).value;
      var id := s.queue[i].id;
      var step := if i == 0 then Step.Admit(now) else TimeOut(i, now);
      && Enabled(busyWait, s, step)
      && var t := Apply(busyWait, s, step);
      && !IsParked(t, id)
      && if i == 0 then t.admitted == s.admitted + [id] && t.gate.inFlight else id in t.timedOut
  {
    InvAfter(busyWait, run);
    var s := After(busyWait, run).value;
    var step := if i == 0 then Step.Admit(now) else TimeOut(i, now);
    InvKept(busyWait, s, step);
  }

  // ---------------------------------------------------------------- everyone can be served

  function ParkedIds(queue: seq<Request>): seq<nat> {
    if queue == [] then []
    else (if queue[0].stage.Parked? then [queue[0].id] else []) + ParkedIds(queue[1..])
  }

  lemma AfterSnoc(busyWait: nat, run: seq<Step>, s: System, step: Step)
    requires After(busyWait, run) == Some(s) && Enabled(busyWait, s, step)
    ensures After(busyWait, run + [step]) == Some(Apply(busyWait, s, step))
  {
    assert (run + [step])[..|run|] == run;
  }

  /** The head of the queue runs its turn, if it has not, and gives the lock back. */
  lemma ServeHead(busyWait: nat, run: seq<Step>, s: System) returns (more: seq<Step>, t: System)
    requires After(busyWait, run) == Some(s) && s.queue != []
    ensures |more| <= 3 && After(busyWait, run + more) == Some(t)
    ensures t.queue == s.queue[1..] && t.timedOut == s.timedOut && t.cancelled == s.cancelled
    ensures t.admitted == s.admitted + if s.queue[0].stage.Parked? then [s.queue[0].id] else []
  {
    hide After;
    more, t := [], s;
    assert run + more == run;
    if t.queue[0].stage.Parked? {
      AfterSnoc(busyWait, run + more, t, Step.Admit(t.clock));
      assert run + (more + [Step.Admit(t.clock)]) == run + more + [Step.Admit(t.clock)];
      more, t := more + [Step.Admit(t.clock)], Apply(busyWait, t, Step.Admit(t.clock));
    }
    if t.queue[0].stage.Turn? {
      AfterSnoc(busyWait, run + more, t, DropGuard(t.clock));
      assert run + (more + [DropGuard(t.clock)]) == run + more + [DropGuard(t.clock)];
      more, t := more + [DropGuard(t.clock)], Apply(busyWait, t, DropGuard(t.clock));
    }
    AfterSnoc(busyWait, run + more, t, Release(t.clock));
    assert run + (more + [Release(t.clock)]) == run + more + [Release(t.clock)];
    more, t := more + [Release(t.clock)], Apply(busyWait, t, Release(t.clock));
  }

  /** The gate never wedges by itself: from every reachable state at most three steps per
      queued request admit everyone who is parked, in order, and leave the lock free. */
  lemma {:induction false} EveryoneCanBeServed(busyWait: nat, run: seq<Step>, s: System)
    returns (more: seq<Step>, t: System)
    requires After(busyWait, run) == Some(s)
    ensures |more| <= 3 * |s.queue| && After(busyWait, run + more) == Some(t)
    ensures t.queue == [] && t.timedOut == s.timedOut && t.cancelled == s.cancelled
    ensures t.admitted == s.admitted + ParkedIds(s.queue)
    decreases |s.queue|
  {
    hide After;
    if s.queue == [] {
      more, t := [], s;
      assert run + more == run;
    } else {
      var first, mid := ServeHead(busyWait, run, s);
      var rest;
      rest, t := EveryoneCanBeServed(busyWait, run + first, mid);
      more := first + rest;
      assert run + more == run + first + rest;
    }
  }

  // ---------------------------------------------------------------- every run without arrivals ends

  /** A step that brings some request closer to leaving the gate. */
  predicate Leaving(step: Step) {
    !step.Arrive? && !step.Health?
  }

  predicate Serving(step: Step) {
    step.Admit? || step.DropGuard? || step.Release?
  }

  function StageLoad(stage: Stage): nat {
    match stage case Parked(_) => 3 case Turn(_) => 2 case Releasing => 1
  }

  function Load(queue: seq<Request>): nat {
    if queue == [] then 0 else StageLoad(queue[0].stage) + Load(queue[1..])
  }

  lemma {:induction false} LoadBound(queue: seq<Request>)
    ensures |queue| <= Load(queue) <= 3 * |queue|
  {
    if queue != [] {
      LoadBound(queue[1..]);
    }
  }

  lemma {:induction false} LoadRemoved(queue: seq<Request>, i: nat)
    requires i < |queue|
    ensures Load(Remove(queue, i)) + StageLoad(queue[i].stage) == Load(queue)
  {
    if i == 0 {
      assert Remove(queue, 0) == queue[1..];
    } else {
      LoadRemoved(queue[1..], i - 1);
      assert Remove(queue, i)[0] == queue[0];
      assert Remove(queue, i)[1..] == Remove(queue[1..], i - 1);
    }
  }

  lemma LeavingStep(busyWait: nat, s: System, step: Step)
    requires Enabled(busyWait, s, step) && Leaving(step)
    ensures
      var t := Apply(busyWait, s, step);
      && Load(t.queue) < Load(s.queue) && t.arrived == s.arrived
      && (Serving(step) ==>
            && t.timedOut == s.timedOut && t.cancelled == s.cancelled
            && t.admitted + ParkedIds(t.queue) == s.admitted + ParkedIds(s.queue))
  {
    var t := Apply(busyWait, s, step);
    if step.TimeOut? || step.Cancel? {
      LoadRemoved(s.queue, step.i);
    } else if !step.Release? {
      assert t.queue[1..] == s.queue[1..];
    }
  }

  lemma {:induction false} LeavingRun(busyWait: nat, run: seq<Step>, s: System, more: seq<Step>)
    requires After(busyWait, run) == Some(s) && After(busyWait, run + more).Some?
    requires forall i :: 0 <= i < |more| ==> Leaving(more[i])
    ensures
      var t := After(busyWait, run + more).value;
      && |more| + Load(t.queue) <= Load(s.queue) && t.arrived == s.arrived
      && ((forall i :: 0 <= i < |more| ==> Serving(more[i])) ==>
            && t.timedOut == s.timedOut && t.cancelled == s.cancelled
            && t.admitted + ParkedIds(t.queue) == s.admitted + ParkedIds(s.queue))
    decreases |more|
  {
    hide Load, Apply, Enabled, ParkedIds;
    if more == [] {
      assert run + more == run;
    } else {
      var front, last := more[..|more| - 1], more[|more| - 1];
      assert (run + more)[..|run + more| - 1] == run + front;
      LeavingRun(busyWait, run, s, front);
      LeavingStep(busyWait, After(busyWait, run + front).value, last);
    }
  }

  lemma SomeoneServed(busyWait: nat, s: System)
    requires s.queue != []
    ensures exists step :: Serving(step) && Enabled(busyWait, s, step)
  {
    match s.queue[0].stage
    case Parked(_) => assert Enabled(busyWait, s, Step.Admit(s.clock));
    case Turn(_) => assert Enabled(busyWait, s, DropGuard(s.clock));
    case Releasing => assert Enabled(busyWait, s, Release(s.clock));
  }

  /** However requests are admitted, finished, timed out and cancelled, without arrivals a
      run takes at most three steps per queued request.  Where serving cannot go on the
      queue is empty and every arrival was admitted, timed out or cancelled; if all steps
      were serving ones, everyone parked was admitted, in order. */
  lemma EveryRunServes(busyWait: nat, run: seq<Step>, s: System, more: seq<Step>)
    requires After(busyWait, run) == Some(s) && After(busyWait, run + more).Some?
    requires forall i :: 0 <= i < |more| ==> Leaving(more[i])
    ensures |more| <= 3 * |s.queue|
    ensures
      var t := After(busyWait, run + more).value;
      (forall step :: Serving(step) ==> !Enabled(busyWait, t, step)) ==>
        && t.queue == []
        && (forall id: nat :: id < s.arrived ==> id in t.admitted || id in t.timedOut || id in t.cancelled)
        && ((forall i :: 0 <= i < |more| ==> Serving(more[i])) ==> t.admitted == s.admitted + ParkedIds(s.queue))
  {
    hide Enabled, After;
    LeavingRun(busyWait, run, s, more);
    LoadBound(s.queue);
    InvAfter(busyWait, run + more);
    var t := After(busyWait, run + more).value;
    if t.queue != [] {
      SomeoneServed(busyWait, t);
    } else {
      assert t.admitted + [] == t.admitted;
    }
  }

  /** In every state the run passes through the counter shows the parked requests. */
  ghost predicate ExactAlong(busyWait: nat, run: seq<Step>) {
    forall n :: 0 <= n <= |run| && After(busyWait, run[..n]).Some? ==>
      After(busyWait, run[..n]).value.gate.waiters == ParkedCount(After(busyWait, run[..n]).value)
  }

  /** No state the run passes through parks more requests than a `u32` can count. */
  ghost predicate BoundedAlong(busyWait: nat, run: seq<Step>) {
    forall n :: 0 <= n <= |run| && After(busyWait, run[..n]).Some? ==>
      ParkedCount(After(busyWait, run[..n]).value) <= U32_MAX
  }

  lemma StepKeepsExact(busyWait: nat, s: System, step: Step)
    requires Inv(s) && Enabled(busyWait, s, step) && s.gate.waiters == ParkedCount(s)
    requires ParkedCount(Apply(busyWait, s, step)) <= U32_MAX
    ensures Apply(busyWait, s, step).gate.waiters == ParkedCount(Apply(busyWait, s, step))
  {
    var t := Apply(busyWait, s, step);
    if step.TimeOut? || step.Cancel? {
      RemoveParked(s, t, step.i);
      hide ParkedCount, InTurn, Remove;
    }
    hide AdmissionOk, FatesOk, PlacedOk, CountersOk;
  }

  lemma BoundedPrefix(busyWait: nat, run: seq<Step>, n: nat)
    requires n <= |run| && BoundedAlong(busyWait, run)
    ensures BoundedAlong(busyWait, run[..n])
  {
    forall m | 0 <= m <= n && After(busyWait, run[..n][..m]).Some?
      ensures ParkedCount(After(busyWait, run[..n][..m]).value) <= U32_MAX
    {
      assert run[..n][..m] == run[..m];
    }
  }

  lemma {:induction false} ExactWhileBounded(busyWait: nat, run: seq<Step>)
    requires After(busyWait, run).Some? && BoundedAlong(busyWait, run)
    ensures After(busyWait, run).value.gate.waiters == ParkedCount(After(busyWait, run).value)
  {
    assert run[..|run|] == run;
    if run != [] {
      var front := run[..|run| - 1];
      BoundedPrefix(busyWait, run, |run| - 1);
      ExactWhileBounded(busyWait, front);
      InvAfter(busyWait, front);
      StepKeepsExact(busyWait, After(busyWait, front).value, run[|run| - 1]);
    }
  }

  /** `waiters` equals the number of parked requests all along a run if and only if no
      state of the run parks more than a `u32` can count. */
  lemma WaitersExactIff(busyWait: nat, run: seq<Step>)
    requires After(busyWait, run).Some?
    ensures ExactAlong(busyWait, run) <==> BoundedAlong(busyWait, run)
  {
    forall n | 0 <= n <= |run| && After(busyWait, run[..n]).Some?
      ensures After(busyWait, run[..n]).value.gate.waiters <= U32_MAX
    {
      InvAfter(busyWait, run[..n]);
    }
    if BoundedAlong(busyWait, run) {
      forall n | 0 <= n <= |run| && After(busyWait, run[..n]).Some?
        ensures After(busyWait, run[..n]).value.gate.waiters == ParkedCount(After(busyWait, run[..n]).value)
      {
        BoundedPrefix(busyWait, run, n);
        ExactWhileBounded(busyWait, run[..n]);
      }
    }
  }

  // ---------------------------------------------------------------- a crowd

  function Crowd(n: nat): seq<Step> {
    seq(n, _ => Arrive(0))
  }

  lemma {:induction false} CrowdParks(busyWait: nat, n: nat)
    ensures
      var s := After(busyWait, Crowd(n));
      && s.Some? && s.value.clock == 0 && |s.value.queue| == n
      && forall i :: 0 <= i < n ==> s.value.queue[i].stage.Parked?
  {
    if n > 0 {
      CrowdParks(busyWait, n - 1);
      assert Crowd(n)[..n - 1] == Crowd(n - 1);
    }
  }

  /** One more arrival than a `u32` counts, and the counter is wrong. */
  lemma CounterOverflows(busyWait: nat)
    ensures After(busyWait, Crowd(U32_MAX + 1)).Some? && !ExactAlong(busyWait, Crowd(U32_MAX + 1))
  {
    hide After;
    var run := Crowd(U32_MAX + 1);
    CrowdParks(busyWait, U32_MAX + 1);
    WaitersExactIff(busyWait, run);
    assert run[..|run|] == run;
  }
}
