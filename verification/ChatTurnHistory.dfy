/** What a run of the chat turn gate did, read off its steps: who arrived when, when turns
    began and ended, and how the health view and the time-outs follow from that. */
module ChatTurnHistory {
  import opened ChatTurnGate
  import opened Wrappers

  // ---------------------------------------------------------------- reading a run

  /** When each request arrived; a request's id is its place here. */
  function Arrivals(run: seq<Step>): seq<int> {
    if run == [] then []
    else
      var last := run[|run| - 1];
      Arrivals(run[..|run| - 1]) + if last.Arrive? then [last.now] else []
  }

  /** When the last turn began. */
  function LastAdmit(run: seq<Step>): Option<int> {
    if run == [] then None
    else
      var last := run[|run| - 1];
      if last.Admit? then Some(last.now) else LastAdmit(run[..|run| - 1])
  }

  /** When the last turn ended. */
  function LastDrop(run: seq<Step>): Option<int> {
    if run == [] then None
    else
      var last := run[|run| - 1];
      if last.DropGuard? then Some(last.now) else LastDrop(run[..|run| - 1])
  }

  function Drops(run: seq<Step>): nat {
    if run == [] then 0 else Drops(run[..|run| - 1]) + if run[|run| - 1].DropGuard? then 1 else 0
  }

  // ---------------------------------------------------------------- turns

  ghost predicate TurnsTold(s: System, run: seq<Step>) {
    && (InTurn(s) ==> LastAdmit(run) == Some(s.queue[0].stage.since))
    && s.lastDrop == LastDrop(run) && s.guardsDropped == Drops(run)
    && (s.lastDrop.Some? ==> s.lastDrop.value <= s.clock)
  }

  lemma TurnsStep(busyWait: nat, s: System, run: seq<Step>, step: Step)
    requires QueueOk(s) && TurnsTold(s, run) && Enabled(busyWait, s, step)
    ensures TurnsTold(Apply(busyWait, s, step), run + [step])
  {
    hide Registered, Unregistered, Admitted, TurnCompleted;
    assert (run + [step])[..|run|] == run;
  }

  lemma {:induction false} TurnsAfter(busyWait: nat, run: seq<Step>)
    requires After(busyWait, run).Some?
    ensures TurnsTold(After(busyWait, run).value, run)
  {
    if run != [] {
      hide TurnsTold, Apply, Enabled, QueueOk;
      var front := run[..|run| - 1];
      TurnsAfter(busyWait, front);
      InvAfter(busyWait, front);
      TurnsStep(busyWait, After(busyWait, front).value, front, run[|run| - 1]);
      assert front + [run[|run| - 1]] == run;
    }
  }

  /** The health view of any moment of a run: how many turns ended, how long ago the last
      one did, and how long the present one has been running. */
  lemma ViewIs(busyWait: nat, run: seq<Step>, wedgeAfter: nat, now: int)
    requires After(busyWait, run).Some? && After(busyWait, run).value.clock <= now
    ensures
      var s := After(busyWait, run).value;
      var view := Snapshot(s.gate, wedgeAfter, now);
      && view.inFlight == InTurn(s)
      && view.completedTurns == (if Drops(run) > 0xffff_ffff_ffff_ffff then 0xffff_ffff_ffff_ffff else Drops(run))
      && view.lastTurnAgeSecs
         == (if LastDrop(run).Some? then Some((now - LastDrop(run).value) / 1_000_000_000) else None)
      && view.currentTurnAgeSecs
         == (if InTurn(s) && LastAdmit(run).Some? then Some((now - LastAdmit(run).value) / 1_000_000_000) else None)
      && (view.wedged <==> InTurn(s) && LastAdmit(run).Some? && now - LastAdmit(run).value >= wedgeAfter)
  {
    InvAfter(busyWait, run);
    TurnsAfter(busyWait, run);
    hide After, LastDrop, LastAdmit, Drops, AdmissionOk, FatesOk, PlacedOk, ArrivalsOk;
  }

  // ---------------------------------------------------------------- waits

  ghost predicate WaitsTold(s: System, times: seq<int>) {
    && |times| == s.arrived
    && forall i :: 0 <= i < |s.queue| && s.queue[i].stage.Parked? ==>
         s.queue[i].id < |times| && s.queue[i].stage.since == times[s.queue[i].id]
  }

  lemma WaitsStep(busyWait: nat, s: System, run: seq<Step>, step: Step)
    requires WaitsTold(s, Arrivals(run)) && Enabled(busyWait, s, step)
    ensures WaitsTold(Apply(busyWait, s, step), Arrivals(run + [step]))
  {
    hide Registered, Unregistered, Admitted, TurnCompleted;
    var t := Apply(busyWait, s, step);
    assert (run + [step])[..|run|] == run;
    if step.TimeOut? || step.Cancel? {
      forall i | 0 <= i < |t.queue|
        ensures t.queue[i] == s.queue[if i < step.i then i else i + 1]
      {
        RemoveShifts(s.queue, step.i, i);
      }
      hide Remove;
    }
  }

  lemma {:induction false} WaitsAfter(busyWait: nat, run: seq<Step>)
    requires After(busyWait, run).Some?
    ensures WaitsTold(After(busyWait, run).value, Arrivals(run))
  {
    if run != [] {
      hide WaitsTold, Apply, Enabled, Arrivals;
      var front := run[..|run| - 1];
      WaitsAfter(busyWait, front);
      WaitsStep(busyWait, After(busyWait, front).value, front, run[|run| - 1]);
      assert front + [run[|run| - 1]] == run;
    } else {
      assert Arrivals(run) == [];
    }
  }

  /** At step `n` of the run a request, not at the head of the queue, times out. */
  ghost predicate TimesOut(busyWait: nat, run: seq<Step>, n: nat, id: nat) {
    && n < |run| && run[n].TimeOut? && After(busyWait, run[..n]).Some?
    && var queue := After(busyWait, run[..n]).value.queue;
    && 0 < run[n].i < |queue| && queue[run[n].i].id == id
  }

  /** At step `n` a waiting request is cancelled. */
  ghost predicate Cancels(busyWait: nat, run: seq<Step>, n: nat, id: nat) {
    && n < |run| && run[n].Cancel? && After(busyWait, run[..n]).Some?
    && var queue := After(busyWait, run[..n]).value.queue;
    && run[n].i < |queue| && queue[run[n].i].id == id
  }

  /** At step `n` the request at the head of the queue is given the lock. */
  ghost predicate Begins(busyWait: nat, run: seq<Step>, n: nat, id: nat) {
    && n < |run| && run[n].Admit? && After(busyWait, run[..n]).Some?
    && var queue := After(busyWait, run[..n]).value.queue;
    && queue != [] && queue[0].id == id
  }

  ghost predicate EndsWait(busyWait: nat, run: seq<Step>, n: nat, id: nat) {
    Begins(busyWait, run, n, id) || TimesOut(busyWait, run, n, id) || Cancels(busyWait, run, n, id)
  }

  lemma SamePrefix(busyWait: nat, run: seq<Step>, n: nat, id: nat)
    requires n < |run| - 1
    ensures TimesOut(busyWait, run, n, id) <==> TimesOut(busyWait, run[..|run| - 1], n, id)
    ensures Cancels(busyWait, run, n, id) <==> Cancels(busyWait, run[..|run| - 1], n, id)
    ensures Begins(busyWait, run, n, id) <==> Begins(busyWait, run[..|run| - 1], n, id)
  {
    hide After;
    assert run[..|run| - 1][..n] == run[..n];
  }

  lemma LastStep(busyWait: nat, run: seq<Step>, id: nat)
    requires run != [] && After(busyWait, run).Some?
    ensures
      var s, t := After(busyWait, run[..|run| - 1]).value, After(busyWait, run).value;
      && (id in t.timedOut <==> id in s.timedOut || TimesOut(busyWait, run, |run| - 1, id))
      && (id in t.cancelled <==> id in s.cancelled || Cancels(busyWait, run, |run| - 1, id))
      && (id in t.admitted <==> id in s.admitted || Begins(busyWait, run, |run| - 1, id))
  {
    hide Remove, Registered, Unregistered, Admitted, TurnCompleted;
  }

  /** The requests that timed out, were cancelled or began a turn are those that a step of
      the run did this to. */
  lemma {:induction false} TimedOutIff(busyWait: nat, run: seq<Step>, id: nat)
    requires After(busyWait, run).Some?
    ensures id in After(busyWait, run).value.timedOut <==> exists n :: 0 <= n < |run| && TimesOut(busyWait, run, n, id)
  {
    if run != [] {
      var k := |run| - 1;
      TimedOutIff(busyWait, run[..k], id);
      LastStep(busyWait, run, id);
      forall n | 0 <= n < k
        ensures TimesOut(busyWait, run, n, id) <==> TimesOut(busyWait, run[..k], n, id)
      {
        SamePrefix(busyWait, run, n, id);
      }
      hide TimesOut;
    }
  }

  lemma {:induction false} CancelledIff(busyWait: nat, run: seq<Step>, id: nat)
    requires After(busyWait, run).Some?
    ensures id in After(busyWait, run).value.cancelled <==> exists n :: 0 <= n < |run| && Cancels(busyWait, run, n, id)
  {
    if run != [] {
      var k := |run| - 1;
      CancelledIff(busyWait, run[..k], id);
      LastStep(busyWait, run, id);
      forall n | 0 <= n < k
        ensures Cancels(busyWait, run, n, id) <==> Cancels(busyWait, run[..k], n, id)
      {
        SamePrefix(busyWait, run, n, id);
      }
      hide Cancels;
    }
  }

  lemma {:induction false} AdmittedIff(busyWait: nat, run: seq<Step>, id: nat)
    requires After(busyWait, run).Some?
    ensures id in After(busyWait, run).value.admitted <==> exists n :: 0 <= n < |run| && Begins(busyWait, run, n, id)
  {
    if run != [] {
      var k := |run| - 1;
      AdmittedIff(busyWait, run[..k], id);
      LastStep(busyWait, run, id);
      forall n | 0 <= n < k
        ensures Begins(busyWait, run, n, id) <==> Begins(busyWait, run[..k], n, id)
      {
        SamePrefix(busyWait, run, n, id);
      }
      hide Begins;
    }
  }

  lemma {:induction false} RunsBefore(busyWait: nat, run: seq<Step>, n: nat)
    requires After(busyWait, run).Some? && n < |run|
    ensures After(busyWait, run[..n]).Some? && Enabled(busyWait, After(busyWait, run[..n]).value, run[n])
  {
    hide Apply, Enabled;
    var k := |run| - 1;
    if n < k {
      RunsBefore(busyWait, run[..k], n);
      assert run[..k][..n] == run[..n];
    }
  }

  lemma {:induction false} ArrivalsPrefix(run: seq<Step>, n: nat)
    requires n <= |run|
    ensures |Arrivals(run[..n])| <= |Arrivals(run)| && Arrivals(run[..n]) == Arrivals(run)[..|Arrivals(run[..n])|]
  {
    if n < |run| {
      ArrivalsPrefix(run[..|run| - 1], n);
      assert run[..|run| - 1][..n] == run[..n];
    } else {
      assert run[..n] == run;
    }
  }

  /** A request that timed out had waited its whole budget since it arrived, behind others. */
  lemma TimedOutWaited(busyWait: nat, run: seq<Step>, n: nat, id: nat)
    requires After(busyWait, run).Some? && TimesOut(busyWait, run, n, id)
    ensures id < |Arrivals(run)| && run[n].now - Arrivals(run)[id] >= busyWait
  {
    RunsBefore(busyWait, run, n);
    WaitsAfter(busyWait, run[..n]);
    ArrivalsPrefix(run, n);
    hide Arrivals, After;
  }

  lemma StillParked(busyWait: nat, run: seq<Step>, id: nat)
    requires After(busyWait, run).Some?
    ensures
      var s := After(busyWait, run).value;
      IsParked(s, id) <==>
        id < |Arrivals(run)| && id !in s.admitted && id !in s.timedOut && id !in s.cancelled
  {
    hide After, IsParked, Arrivals;
    WaitsAfter(busyWait, run);
    EveryArrivalAccounted(busyWait, run, id);
  }

  /** The requests still waiting are those that arrived and no step has let in or out. */
  lemma WaitingIff(busyWait: nat, run: seq<Step>, id: nat)
    requires After(busyWait, run).Some?
    ensures
      IsParked(After(busyWait, run).value, id) <==>
        id < |Arrivals(run)| && forall n :: 0 <= n < |run| ==> !EndsWait(busyWait, run, n, id)
  {
    hide After, IsParked, Arrivals, TimesOut, Cancels, Begins;
    StillParked(busyWait, run, id);
    TimedOutIff(busyWait, run, id);
    CancelledIff(busyWait, run, id);
    AdmittedIff(busyWait, run, id);
    assert forall n :: TimesOut(busyWait, run, n, id) ==> EndsWait(busyWait, run, n, id);
    assert forall n :: Cancels(busyWait, run, n, id) ==> EndsWait(busyWait, run, n, id);
    assert forall n :: Begins(busyWait, run, n, id) ==> EndsWait(busyWait, run, n, id);
  }
}
