/** The dispatcher is never stuck: what it waits for is always work the one driver
    it is delivering to can do, and there is a bounded amount of it. */
module ChatDriverProgress {
  import opened ChatDrivers
  import opened Wrappers
  import opened ChatDriverSafety

  predicate ByDriver(step: Step, g: nat) {
    match step
    case Receive(h) => h == g
    case IdleTimer(h) => h == g
    case RetireCheck(h) => h == g
    case Disconnect(h) => h == g
    case Finish(h) => h == g
    case SendFails(h) => h == g
    case _ => false
  }

  /** Steps driver `gen` must take before the dispatcher's send can complete: one to
      leave the gate when it is ahead there, else those that make room in a full inbox. */
  function WorkAhead(s: State): (work: nat)
    requires s.pc.Delivering? && s.pc.gen < |s.drivers|
    ensures work <= 2
  {
    var d := s.drivers[s.pc.gen];
    if d.gate != [] && d.gate[0] == DriverTask then 1
    else if d.phase.Gone? || |d.inbox| < INBOX_CAPACITY then 0
    else if d.phase.Turn? then 2
    else 1
  }

  /** A driver queued to retire has at most one letter; so a dispatcher that holds the
      gate of a full inbox never faces a driver waiting for that same gate. */
  lemma FullInboxNeverAtGate(cfg: Config, run: seq<Step>, g: nat)
    requires After(cfg, run).Some? && g < |After(cfg, run).value.drivers|
    ensures
      var d := After(cfg, run).value.drivers[g];
      && (d.phase.AtGate? ==> |d.inbox| <= 1)
      && (|d.inbox| == INBOX_CAPACITY ==> DriverTask !in d.gate)
  {
    InvAfter(cfg, run);
    assert DriverOk(After(cfg, run).value, g);
  }

  lemma StructureAfter(cfg: Config, run: seq<Step>, s: State)
    requires After(cfg, run) == Some(s)
    ensures Structure(s)
  {
    InvAfter(cfg, run);
  }

  /** With no work ahead the send completes or hands the letter back at once; with work
      ahead the driver being waited for has a step to take. */
  lemma NeverStuck(cfg: Config, run: seq<Step>, s: State)
    requires After(cfg, run) == Some(s) && s.pc.Delivering?
    ensures
      && s.pc.gen < |s.drivers|
      && (WorkAhead(s) == 0 <==> Enabled(cfg, s, Deliver) || Enabled(cfg, s, Redeliver))
      && (WorkAhead(s) > 0 ==>
            || Enabled(cfg, s, RetireCheck(s.pc.gen))
            || Enabled(cfg, s, Receive(s.pc.gen))
            || Enabled(cfg, s, Finish(s.pc.gen)))
  {
    StructureAfter(cfg, run, s);
    NeverStuckIn(cfg, s);
  }

  lemma NeverStuckIn(cfg: Config, s: State)
    requires Structure(s) && s.pc.Delivering?
    ensures
      && s.pc.gen < |s.drivers|
      && (WorkAhead(s) == 0 <==> Enabled(cfg, s, Deliver) || Enabled(cfg, s, Redeliver))
      && (WorkAhead(s) > 0 ==>
            || Enabled(cfg, s, RetireCheck(s.pc.gen))
            || Enabled(cfg, s, Receive(s.pc.gen))
            || Enabled(cfg, s, Finish(s.pc.gen)))
  {
    assert DriverOk(s, s.pc.gen);
  }

  /** Every step of that driver shrinks the work ahead, and no other party's step can
      add to it or change what is being delivered. */
  lemma WorkOnlyShrinks(cfg: Config, run: seq<Step>, s: State, step: Step)
    requires After(cfg, run) == Some(s) && s.pc.Delivering?
    requires Enabled(cfg, s, step) && !step.Deliver? && !step.Redeliver?
    ensures
      var t := Apply(cfg, s, step);
      && t.pc == s.pc && s.pc.gen < |s.drivers| && s.pc.gen < |t.drivers|
      && (if ByDriver(step, s.pc.gen)
          then WorkAhead(t) < WorkAhead(s) || WorkAhead(s) == WorkAhead(t) == 0
          else WorkAhead(t) == WorkAhead(s))
  {
    StructureAfter(cfg, run, s);
    WorkShrinksIn(cfg, s, step);
  }

  lemma WorkShrinksIn(cfg: Config, s: State, step: Step)
    requires Structure(s) && s.pc.Delivering?
    requires Enabled(cfg, s, step) && !step.Deliver? && !step.Redeliver?
    ensures
      var t := Apply(cfg, s, step);
      && t.pc == s.pc && s.pc.gen < |s.drivers| && s.pc.gen < |t.drivers|
      && (if ByDriver(step, s.pc.gen)
          then WorkAhead(t) < WorkAhead(s) || WorkAhead(s) == WorkAhead(t) == 0
          else WorkAhead(t) == WorkAhead(s))
  {
    assert DriverOk(s, s.pc.gen);
  }

  lemma AfterSnoc(cfg: Config, run: seq<Step>, s: State, step: Step)
    requires After(cfg, run) == Some(s) && Enabled(cfg, s, step)
    ensures After(cfg, run + [step]) == Some(Apply(cfg, s, step))
  {
    assert (run + [step])[..|run|] == run;
  }

  /** A step that only moves letters on: no new update is taken and no reply fails. */
  predicate Quiet(step: Step) {
    !step.Poll? && !step.Skip? && !step.Take? && !step.EndBatch? && !step.SendFails?
  }

  /** `more` continues the run with steps of the dispatcher's send and of driver `gen`
      only, none a failure, and ends with the letter delivered. */
  ghost predicate Delivers(cfg: Config, run: seq<Step>, gen: nat, rest: seq<Update>, more: seq<Step>) {
    && (forall i :: 0 <= i < |more| ==>
          Quiet(more[i]) && (more[i].Deliver? || more[i].Redeliver? || ByDriver(more[i], gen)))
    && After(cfg, run + more).Some?
    && After(cfg, run + more).value.pc == Batch(rest)
  }

  lemma DeliversFrom(cfg: Config, run: seq<Step>, gen: nat, rest: seq<Update>, first: Step, tail: seq<Step>)
    requires Delivers(cfg, run + [first], gen, rest, tail) && ByDriver(first, gen) && Quiet(first)
    ensures Delivers(cfg, run, gen, rest, [first] + tail)
  {
    assert run + ([first] + tail) == run + [first] + tail;
  }

  /** From every reachable state with a letter in hand, some continuation of at most
      `WorkAhead + 1` steps, hence at most three, delivers it. */
  lemma {:induction false} DeliveryReachable(cfg: Config, run: seq<Step>, s: State, work: nat) returns (more: seq<Step>)
    requires After(cfg, run) == Some(s) && s.pc.Delivering?
    requires s.pc.gen < |s.drivers| && WorkAhead(s) <= work
    ensures |more| <= work + 1 && Delivers(cfg, run, s.pc.gen, s.pc.rest, more)
    decreases work
  {
    if WorkAhead(s) == 0 {
      more := SendNow(cfg, run, s);
    } else {
      var first, t := DriverMove(cfg, run, s);
      var tail := DeliveryReachable(cfg, run + [first], t, work - 1);
      DeliversFrom(cfg, run, s.pc.gen, s.pc.rest, first, tail);
      more := [first] + tail;
    }
  }

  lemma SendNow(cfg: Config, run: seq<Step>, s: State) returns (more: seq<Step>)
    requires After(cfg, run) == Some(s) && s.pc.Delivering?
    requires s.pc.gen < |s.drivers| && WorkAhead(s) == 0
    ensures |more| == 1 && Delivers(cfg, run, s.pc.gen, s.pc.rest, more)
  {
    NeverStuck(cfg, run, s);
    var last := if Enabled(cfg, s, Deliver) then Deliver else Redeliver;
    AfterSnoc(cfg, run, s, last);
    more := [last];
  }

  lemma DriverMove(cfg: Config, run: seq<Step>, s: State) returns (step: Step, t: State)
    requires After(cfg, run) == Some(s) && s.pc.Delivering?
    requires s.pc.gen < |s.drivers| && WorkAhead(s) > 0
    ensures ByDriver(step, s.pc.gen) && Quiet(step)
    ensures After(cfg, run + [step]) == Some(t)
    ensures t.pc == s.pc && s.pc.gen < |t.drivers| && WorkAhead(t) < WorkAhead(s)
  {
    NeverStuck(cfg, run, s);
    if Enabled(cfg, s, RetireCheck(s.pc.gen)) {
      step := RetireCheck(s.pc.gen);
    } else if Enabled(cfg, s, Receive(s.pc.gen)) {
      step := Receive(s.pc.gen);
    } else {
      step := Finish(s.pc.gen);
    }
    t := Apply(cfg, s, step);
    AfterSnoc(cfg, run, s, step);
    WorkOnlyShrinks(cfg, run, s, step);
  }

  /** A letter an open driver holds is never stranded: the driver has a step of its own
      that handles it or moves it into a turn, and it is not the step that ends the driver. */
  lemma HeldLettersMove(cfg: Config, run: seq<Step>, g: nat)
    requires After(cfg, run).Some? && g < |After(cfg, run).value.drivers|
    requires Holding(After(cfg, run).value.drivers[g]) != []
    ensures
      var s := After(cfg, run).value;
      || Enabled(cfg, s, Finish(g))
      || (Enabled(cfg, s, Receive(g)) && Apply(cfg, s, Receive(g)).drivers[g].phase.Turn?)
      || (Enabled(cfg, s, RetireCheck(g)) && Apply(cfg, s, RetireCheck(g)).drivers[g].phase.Turn?)
  {
    InvAfter(cfg, run);
    HeldMoves(cfg, After(cfg, run).value, g);
  }

  lemma HeldMoves(cfg: Config, s: State, g: nat)
    requires g < |s.drivers| && DriverOk(s, g) && Holding(s.drivers[g]) != []
    ensures
      || Enabled(cfg, s, Finish(g))
      || (Enabled(cfg, s, Receive(g)) && Apply(cfg, s, Receive(g)).drivers[g].phase.Turn?)
      || (Enabled(cfg, s, RetireCheck(g)) && Apply(cfg, s, RetireCheck(g)).drivers[g].phase.Turn?)
  {
  }

  // ---------------------------------------------------------------- a chat can always catch up

  /** Steps a driver needs for the letters it holds: to take each up and to finish it. */
  function DrainWork(d: Driver): nat {
    2 * |d.inbox| + if d.phase.Turn? then 1 else 0
  }

  lemma DrainStep(cfg: Config, run: seq<Step>, s: State, g: nat) returns (step: Step, t: State)
    requires After(cfg, run) == Some(s) && g < |s.drivers| && Holding(s.drivers[g]) != []
    ensures Quiet(step) && After(cfg, run + [step]) == Some(t)
    ensures t.pc == s.pc && t.senders == s.senders && |t.drivers| == |s.drivers|
    ensures DrainWork(t.drivers[g]) < DrainWork(s.drivers[g])
  {
    HeldLettersMove(cfg, run, g);
    if Enabled(cfg, s, Finish(g)) {
      step := Finish(g);
    } else if Enabled(cfg, s, Receive(g)) && Apply(cfg, s, Receive(g)).drivers[g].phase.Turn? {
      step := Receive(g);
    } else {
      step := RetireCheck(g);
    }
    t := Apply(cfg, s, step);
    AfterSnoc(cfg, run, s, step);
  }

  lemma {:induction false} Drained(cfg: Config, run: seq<Step>, s: State, g: nat) returns (more: seq<Step>, t: State)
    requires After(cfg, run) == Some(s) && g < |s.drivers|
    ensures |more| <= DrainWork(s.drivers[g]) && After(cfg, run + more) == Some(t)
    ensures forall i :: 0 <= i < |more| ==> Quiet(more[i])
    ensures t.pc == s.pc && t.senders == s.senders && |t.drivers| == |s.drivers| && Holding(t.drivers[g]) == []
    decreases DrainWork(s.drivers[g])
  {
    hide After;
    if Holding(s.drivers[g]) == [] {
      more, t := [], s;
      assert run + more == run;
    } else {
      var step, mid := DrainStep(cfg, run, s, g);
      var tail;
      tail, t := Drained(cfg, run + [step], mid, g);
      more := [step] + tail;
      assert run + more == run + [step] + tail;
    }
  }

  /** Quiet steps take no update and lose nothing. */
  lemma {:induction false} QuietKeeps(cfg: Config, run: seq<Step>, more: seq<Step>, chat: int)
    requires After(cfg, run + more).Some? && forall i :: 0 <= i < |more| ==> Quiet(more[i])
    ensures After(cfg, run).Some? && After(cfg, run + more).value.seen == After(cfg, run).value.seen
    ensures NoFailureOverQueue(cfg, run + more, chat) <==> NoFailureOverQueue(cfg, run, chat)
    decreases |more|
  {
    if more == [] {
      assert run + more == run;
    } else {
      var front := more[..|more| - 1];
      assert (run + more)[..|run + more| - 1] == run + front;
      QuietKeeps(cfg, run, front, chat);
    }
  }

  /** The letter of the chat in the dispatcher's hand, if there is one, is delivered. */
  lemma HandEmptied(cfg: Config, run: seq<Step>, s: State, chat: int) returns (more: seq<Step>, t: State)
    requires After(cfg, run) == Some(s)
    ensures |more| <= 3 && After(cfg, run + more) == Some(t) && InHand(t, chat) == []
    ensures forall i :: 0 <= i < |more| ==> Quiet(more[i])
  {
    if InHand(s, chat) == [] {
      more, t := [], s;
      assert run + more == run;
    } else {
      NeverStuck(cfg, run, s);
      more := DeliveryReachable(cfg, run, s, WorkAhead(s));
      t := After(cfg, run + more).value;
    }
  }

  /** From every reachable state a chat can catch up: some continuation without new updates
      or failures settles everything its users were owed, in order, within a bounded number
      of steps, and loses nothing that was not lost before. */
  lemma ChatCatchesUp(cfg: Config, run: seq<Step>, s: State, chat: int) returns (more: seq<Step>, t: State)
    requires After(cfg, run) == Some(s)
    ensures |more| <= 4 + 2 * INBOX_CAPACITY && After(cfg, run + more) == Some(t)
    ensures forall i :: 0 <= i < |more| ==> Quiet(more[i])
    ensures t.seen == s.seen && For(chat, Letters(t.settled)) == For(chat, Wants(cfg, s.seen))
    ensures NoFailureOverQueue(cfg, run, chat) <==> HandledFor(chat, t.settled) == For(chat, Wants(cfg, s.seen))
  {
    hide After, NoFailureOverQueue, For, Letters, HandledFor, Wants;
    var first, mid := HandEmptied(cfg, run, s, chat);
    more, t := first, mid;
    if Pending(mid, chat) != [] {
      var g := mid.senders[chat];
      var rest;
      rest, t := Drained(cfg, run + first, mid, g);
      OneOpenDriver(cfg, run + first, g, g);
      more := first + rest;
      assert run + more == run + first + rest;
    }
    assert Pending(t, chat) == [] && InHand(t, chat) == [];
    QuietKeeps(cfg, run, more, chat);
    EveryLetterInOnePlace(cfg, run + more, chat);
    NothingDroppedIff(cfg, run + more, chat);
    Alone(For(chat, Letters(t.settled)));
    Alone(HandledFor(chat, t.settled));
  }

  lemma Alone(letters: seq<Letter>)
    ensures letters + [] + [] == letters
  {
  }

  // ---------------------------------------------------------------- every quiet run settles everything

  function DriverLoad(d: Driver): nat {
    4 * |d.inbox| + match d.phase case Turn(_) => 3 case Waiting => 2 case AtGate => 1 case Gone => 0
  }

  function DriversLoad(drivers: seq<Driver>): nat {
    if drivers == [] then 0 else DriversLoad(drivers[..|drivers| - 1]) + DriverLoad(drivers[|drivers| - 1])
  }

  /** Quiet steps still possible at most: a letter in hand may yet need a fresh driver. */
  function Load(s: State): nat {
    DriversLoad(s.drivers) + if s.pc.Delivering? then 7 else 0
  }

  lemma {:induction false} LoadUpdated(drivers: seq<Driver>, g: nat, d: Driver)
    requires g < |drivers|
    ensures DriversLoad(drivers[g := d]) + DriverLoad(drivers[g]) == DriversLoad(drivers) + DriverLoad(d)
  {
    var n := |drivers| - 1;
    if g == n {
      assert drivers[g := d][..n] == drivers[..n];
    } else {
      assert drivers[g := d][..n] == drivers[..n][g := d];
      LoadUpdated(drivers[..n], g, d);
    }
  }

  lemma LoadAppended(drivers: seq<Driver>, d: Driver)
    ensures DriversLoad(drivers + [d]) == DriversLoad(drivers) + DriverLoad(d)
  {
    assert (drivers + [d])[..|drivers|] == drivers;
  }

  lemma SentLoad(cfg: Config, s: State, step: Step)
    requires Enabled(cfg, s, step) && (step.Deliver? || step.Redeliver?)
    ensures Load(Apply(cfg, s, step)) < Load(s)
  {
    hide DriversLoad;
    var g := s.pc.gen;
    var d := s.drivers[g].(gate := s.drivers[g].gate[1..]);
    if step.Deliver? {
      LoadUpdated(s.drivers, g, d.(inbox := d.inbox + [s.pc.letter]));
    } else {
      LoadUpdated(s.drivers, g, d);
      LoadAppended(s.drivers[g := d], Driver(s.pc.letter.chat, Waiting, [s.pc.letter], []));
    }
  }

  lemma DriverStepLoad(cfg: Config, s: State, step: Step)
    requires Enabled(cfg, s, step) && Quiet(step) && !step.Deliver? && !step.Redeliver?
    ensures Load(Apply(cfg, s, step)) < Load(s)
  {
    hide DriversLoad;
    var t := Apply(cfg, s, step);
    assert t.drivers == s.drivers[step.g := t.drivers[step.g]];
    LoadUpdated(s.drivers, step.g, t.drivers[step.g]);
  }

  /** A quiet run is no longer than the load it starts with. */
  lemma {:induction false} QuietRunsEnd(cfg: Config, run: seq<Step>, s: State, more: seq<Step>)
    requires After(cfg, run) == Some(s) && After(cfg, run + more).Some?
    requires forall i :: 0 <= i < |more| ==> Quiet(more[i])
    ensures |more| + Load(After(cfg, run + more).value) <= Load(s)
    decreases |more|
  {
    hide Load, Apply, Enabled;
    if more == [] {
      assert run + more == run;
    } else {
      var front, last := more[..|more| - 1], more[|more| - 1];
      assert (run + more)[..|run + more| - 1] == run + front;
      QuietRunsEnd(cfg, run, s, front);
      var t := After(cfg, run + front).value;
      if last.Deliver? || last.Redeliver? {
        SentLoad(cfg, t, last);
      } else {
        DriverStepLoad(cfg, t, last);
      }
    }
  }

  /** No quiet step can be taken. */
  ghost predicate Calm(cfg: Config, s: State) {
    forall step :: Quiet(step) ==> !Enabled(cfg, s, step)
  }

  lemma CalmHoldsNothing(cfg: Config, run: seq<Step>, s: State, chat: int)
    requires After(cfg, run) == Some(s) && Calm(cfg, s)
    ensures Pending(s, chat) == [] && InHand(s, chat) == []
  {
    hide Enabled, After;
    if s.pc.Delivering? {
      NeverStuck(cfg, run, s);
    }
    if Pending(s, chat) != [] {
      HeldLettersMove(cfg, run, s.senders[chat]);
    }
  }

  /** However the dispatcher's send and the drivers are scheduled, without new updates and
      failures: the run is bounded, and where it cannot go on everything wanted of every
      chat has settled, in order, and was handled if and only if no reply had failed over
      a queue. */
  lemma EveryQuietRunSettles(cfg: Config, run: seq<Step>, s: State, more: seq<Step>)
    requires After(cfg, run) == Some(s) && After(cfg, run + more).Some?
    requires forall i :: 0 <= i < |more| ==> Quiet(more[i])
    ensures |more| <= Load(s)
    ensures
      var t := After(cfg, run + more).value;
      Calm(cfg, t) ==>
        forall chat ::
          && For(chat, Letters(t.settled)) == For(chat, Wants(cfg, s.seen))
          && (HandledFor(chat, t.settled) == For(chat, Wants(cfg, s.seen)) <==> NoFailureOverQueue(cfg, run, chat))
  {
    hide After, NoFailureOverQueue, For, Letters, HandledFor, Wants, Load, Calm;
    QuietRunsEnd(cfg, run, s, more);
    var t := After(cfg, run + more).value;
    if Calm(cfg, t) {
      forall chat
        ensures For(chat, Letters(t.settled)) == For(chat, Wants(cfg, s.seen))
        ensures HandledFor(chat, t.settled) == For(chat, Wants(cfg, s.seen)) <==> NoFailureOverQueue(cfg, run, chat)
      {
        CalmHoldsNothing(cfg, run + more, t, chat);
        QuietKeeps(cfg, run, more, chat);
        EveryLetterInOnePlace(cfg, run + more, chat);
        NothingDroppedIff(cfg, run + more, chat);
        Alone(For(chat, Letters(t.settled)));
        Alone(HandledFor(chat, t.settled));
      }
    }
  }

  // ---------------------------------------------------------------- a letter can be lost

  const CHAT_7 := Config(false, {7})

  function TextUpdate(id: int): Update {
    Update(id, Some(Message(7, false, Text)))
  }

  function TextLetter(id: int): Letter {
    Letter(id, 7, Text)
  }

  /** Two messages reach chat 7's driver. */
  const QUEUEING_RUN: seq<Step> := [Poll([TextUpdate(1), TextUpdate(2)]), Take, Deliver, Take, Deliver]

  const ONE_QUEUED :=
    State(
      Batch([TextUpdate(2)]), 2, map[7 := 0], [Driver(7, Waiting, [TextLetter(1)], [])],
      [TextUpdate(1)], [TextLetter(1)], [])

  const BOTH_QUEUED :=
    State(
      Batch([]), 3, map[7 := 0], [Driver(7, Waiting, [TextLetter(1), TextLetter(2)], [])],
      [TextUpdate(1), TextUpdate(2)], [TextLetter(1), TextLetter(2)], [])

  /** Then the reply to the first fails. */
  const FAILING_RUN: seq<Step> := QUEUEING_RUN + [Receive(0), SendFails(0)]

  lemma OneQueued()
    ensures After(CHAT_7, QUEUEING_RUN[..3]) == Some(ONE_QUEUED)
  {
    hide After;
    var run: seq<Step>, s := [], INIT;
    NoSteps();
    run, s := Extend(run, s, Poll([TextUpdate(1), TextUpdate(2)]));
    run, s := Extend(run, s, Take);
    run, s := Extend(run, s, Deliver);
    assert run == QUEUEING_RUN[..3];
    assert s.drivers[0].inbox == [TextLetter(1)] && s.drivers[0].gate == [];
    assert s.pc == ONE_QUEUED.pc && s.drivers == ONE_QUEUED.drivers && s.senders == ONE_QUEUED.senders;
    assert s.seen == ONE_QUEUED.seen && s.dispatched == ONE_QUEUED.dispatched;
  }

  lemma RunQueues()
    ensures After(CHAT_7, QUEUEING_RUN) == Some(BOTH_QUEUED)
  {
    hide After;
    OneQueued();
    var run, s := Extend(QUEUEING_RUN[..3], ONE_QUEUED, Take);
    run, s := Extend(run, s, Deliver);
    assert run == QUEUEING_RUN;
    assert s.drivers[0].inbox == [TextLetter(1), TextLetter(2)] && s.drivers[0].gate == [];
    assert s.pc == BOTH_QUEUED.pc && s.drivers == BOTH_QUEUED.drivers && s.senders == BOTH_QUEUED.senders;
    assert s.seen == BOTH_QUEUED.seen && s.dispatched == BOTH_QUEUED.dispatched;
  }

  lemma RunFails()
    ensures After(CHAT_7, FAILING_RUN).Some?
    ensures After(CHAT_7, FAILING_RUN).value.settled == [Handled(TextLetter(1)), Lost(TextLetter(2))]
  {
    hide After, QUEUEING_RUN;
    RunQueues();
    var run, s := Extend(QUEUEING_RUN, BOTH_QUEUED, Receive(0));
    run, s := Extend(run, s, SendFails(0));
    assert run == FAILING_RUN;
  }

  lemma NoSteps()
    ensures After(CHAT_7, []) == Some(INIT)
  {
  }

  lemma FailedReplyDropsTheQueue()
    ensures After(CHAT_7, FAILING_RUN).Some?
    ensures After(CHAT_7, FAILING_RUN).value.settled == [Handled(TextLetter(1)), Lost(TextLetter(2))]
    ensures !NoFailureOverQueue(CHAT_7, FAILING_RUN, 7)
  {
    hide After, NoFailureOverQueue, FAILING_RUN;
    RunFails();
    NoneLostIff(CHAT_7, FAILING_RUN, 7);
    assert After(CHAT_7, FAILING_RUN).value.settled[1].Lost?;
  }

  lemma Extend(run: seq<Step>, s: State, step: Step) returns (longer: seq<Step>, t: State)
    requires After(CHAT_7, run) == Some(s) && Enabled(CHAT_7, s, step)
    ensures longer == run + [step] && t == Apply(CHAT_7, s, step) && After(CHAT_7, longer) == Some(t)
  {
    AfterSnoc(CHAT_7, run, s, step);
    longer, t := run + [step], Apply(CHAT_7, s, step);
  }
}
