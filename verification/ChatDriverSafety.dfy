/** What every step of the dispatcher-and-drivers system keeps, and what follows
    for whole runs. */
module ChatDriverSafety {
  import opened ChatDrivers
  import opened Wrappers

  // ---------------------------------------------------------------- the invariant

  /** The map points at drivers of the right chat, and an open driver is always mapped. */
  ghost predicate MapOk(s: State) {
    && (forall c :: c in s.senders ==> s.senders[c] < |s.drivers| && s.drivers[s.senders[c]].chat == c)
    && (forall g :: 0 <= g < |s.drivers| && !s.drivers[g].phase.Gone? ==>
          s.drivers[g].chat in s.senders && s.senders[s.drivers[g].chat] == g)
  }

  /** Whether the dispatcher stands in driver `g`'s gate queue. */
  predicate DispatcherAt(s: State, g: nat) {
    s.pc.Delivering? && s.pc.gen == g
  }

  /** The gate queue holds exactly the parties that want it, each once; a driver
      queued on its gate has an empty inbox while the dispatcher is ahead of it and
      at most one letter once the dispatcher's turn is over. */
  ghost predicate GateOk(s: State, g: nat)
    requires g < |s.drivers|
  {
    var d := s.drivers[g];
    if d.phase.AtGate? then
      if DispatcherAt(s, g) then
        || (d.gate == [Dispatcher, DriverTask] && d.inbox == [])
        || (d.gate == [DriverTask, Dispatcher] && |d.inbox| <= 1)
      else d.gate == [DriverTask] && |d.inbox| <= 1
    else
      d.gate == if DispatcherAt(s, g) then [Dispatcher] else []
  }

  ghost predicate DriverOk(s: State, g: nat)
    requires g < |s.drivers|
  {
    var d := s.drivers[g];
    && |d.inbox| <= INBOX_CAPACITY
    && (d.phase.Gone? ==> d.inbox == [])
    && (forall i :: 0 <= i < |d.inbox| ==> d.inbox[i].chat == d.chat)
    && (d.phase.Turn? ==> d.phase.letter.chat == d.chat)
    && GateOk(s, g)
  }

  ghost predicate DeliveryOk(s: State) {
    s.pc.Delivering? ==>
      && s.pc.gen < |s.drivers|
      && s.drivers[s.pc.gen].chat == s.pc.letter.chat
      && s.pc.letter.chat in s.senders
      && s.senders[s.pc.letter.chat] == s.pc.gen
  }

  /** The accounting equation of one chat: what was dispatched is, in order, what was
      settled, then what its open driver holds, then what the dispatcher still holds. */
  ghost predicate Balanced(s: State, chat: int) {
    For(chat, s.dispatched) == For(chat, Letters(s.settled)) + Pending(s, chat) + InHand(s, chat)
  }

  function Rest(pc: Pc): seq<Update> {
    if pc.Polling? then [] else pc.rest
  }

  /** Ids ascend through everything dispatched, and stay below the polling offset. */
  ghost predicate IdsOk(s: State) {
    && BatchFor(s.offset, Rest(s.pc))
    && (forall i :: 0 <= i < |s.seen| ==> s.seen[i].id < s.offset)
    && (forall i :: 0 <= i < |s.dispatched| ==> s.dispatched[i].id < s.offset)
    && (forall i, j :: 0 <= i < j < |s.dispatched| ==> s.dispatched[i].id < s.dispatched[j].id)
  }

  ghost predicate Inv(cfg: Config, s: State) {
    && MapOk(s)
    && (forall g :: 0 <= g < |s.drivers| ==> DriverOk(s, g))
    && DeliveryOk(s)
    && (forall chat :: Balanced(s, chat))
    && IdsOk(s)
    && s.dispatched == Wants(cfg, s.seen)
  }

  // ---------------------------------------------------------------- preservation

  ghost predicate Structure(s: State) {
    && MapOk(s)
    && DeliveryOk(s)
    && (forall g :: 0 <= g < |s.drivers| ==> DriverOk(s, g))
  }

  /** Replacing one driver by another of the same chat keeps the structure when the
      new driver is sound and, unless it ended, the old one was open. */
  lemma SetDriverKept(s: State, g: nat, d: Driver, settled: seq<Fate>)
    requires Structure(s) && g < |s.drivers|
    requires d.chat == s.drivers[g].chat
    requires s.drivers[g].phase.Gone? ==> d.phase.Gone?
    requires DriverOk(SetDriver(s, g, d), g)
    ensures Structure(SetDriver(s, g, d).(settled := settled))
  {
    var t := SetDriver(s, g, d).(settled := settled);
    forall h | 0 <= h < |t.drivers| ensures DriverOk(t, h) {
      assert DriverOk(s, h);
      assert h == g ==> DriverOk(SetDriver(s, g, d), g);
    }
  }

  lemma DriverStepStructure(cfg: Config, s: State, step: Step)
    requires Structure(s) && Enabled(cfg, s, step)
    requires step.Receive? || step.IdleTimer? || step.RetireCheck? || step.Finish? || step.SendFails?
    ensures Structure(Apply(cfg, s, step))
  {
    var g := step.g;
    var t := Apply(cfg, s, step);
    assert DriverOk(s, g);
    SetDriverKept(s, g, t.drivers[g], t.settled);
    assert SetDriver(s, g, t.drivers[g]).(settled := t.settled) == t;
  }

  lemma WalkStructure(cfg: Config, s: State, step: Step)
    requires Structure(s) && Enabled(cfg, s, step)
    requires step.Poll? || step.Skip? || step.EndBatch?
    ensures Structure(Apply(cfg, s, step))
  {
    var t := Apply(cfg, s, step);
    forall g | 0 <= g < |t.drivers| ensures DriverOk(t, g) {
      assert DriverOk(s, g);
    }
  }

  lemma TakeExistingStructure(s: State)
    requires Structure(s) && s.pc.Batch? && s.pc.rest != [] && s.pc.rest[0].message.Some?
    requires ToLetter(s.pc.rest[0]).chat in s.senders && Open(s, s.senders[ToLetter(s.pc.rest[0]).chat])
    ensures Structure(ApplyTake(s))
  {
    var t := ApplyTake(s);
    forall g | 0 <= g < |t.drivers| ensures DriverOk(t, g) {
      assert DriverOk(s, g);
    }
  }

  lemma TakeFreshStructure(s: State)
    requires Structure(s) && s.pc.Batch? && s.pc.rest != [] && s.pc.rest[0].message.Some?
    requires !(ToLetter(s.pc.rest[0]).chat in s.senders && Open(s, s.senders[ToLetter(s.pc.rest[0]).chat]))
    ensures Structure(ApplyTake(s))
  {
    var t := ApplyTake(s);
    forall g | 0 <= g < |t.drivers| ensures DriverOk(t, g) {
      if g < |s.drivers| {
        assert DriverOk(s, g);
      }
    }
  }

  lemma TakeStructure(cfg: Config, s: State)
    requires Structure(s) && Enabled(cfg, s, Take)
    ensures Structure(Apply(cfg, s, Take))
  {
    hide Structure, ApplyTake;
    var chat := ToLetter(s.pc.rest[0]).chat;
    if chat in s.senders && Open(s, s.senders[chat]) {
      TakeExistingStructure(s);
    } else {
      TakeFreshStructure(s);
    }
  }

  lemma DeliverStructure(cfg: Config, s: State)
    requires Structure(s) && Enabled(cfg, s, Deliver)
    ensures Structure(Apply(cfg, s, Deliver))
  {
    var t := Apply(cfg, s, Deliver);
    forall g | 0 <= g < |t.drivers| ensures DriverOk(t, g) {
      assert DriverOk(s, g);
    }
  }

  lemma RedeliverStructure(cfg: Config, s: State)
    requires Structure(s) && Enabled(cfg, s, Redeliver)
    ensures Structure(Apply(cfg, s, Redeliver))
  {
    var t := Apply(cfg, s, Redeliver);
    assert MapOk(t);
    forall g | 0 <= g < |t.drivers| ensures DriverOk(t, g) {
      if g < |s.drivers| {
        assert DriverOk(s, g);
      }
    }
  }

  lemma StructureKept(cfg: Config, s: State, step: Step)
    requires Structure(s) && Enabled(cfg, s, step)
    ensures Structure(Apply(cfg, s, step))
  {
    match step
    case Poll(_) => WalkStructure(cfg, s, step);
    case Skip => WalkStructure(cfg, s, step);
    case Take => TakeStructure(cfg, s);
    case EndBatch => WalkStructure(cfg, s, step);
    case Deliver => DeliverStructure(cfg, s);
    case Redeliver => RedeliverStructure(cfg, s);
    case Disconnect(g) => DisconnectNeverEnabled(cfg, s, g);
    case _ => DriverStepStructure(cfg, s, step);
  }

  /** An open driver's sender is in the map, so `recv` never sees its senders gone. */
  lemma DisconnectNeverEnabled(cfg: Config, s: State, g: nat)
    requires MapOk(s)
    ensures !Enabled(cfg, s, Disconnect(g))
  {
    if g < |s.drivers| && s.drivers[g].phase.Waiting? {
      assert s.senders[s.drivers[g].chat] in s.senders.Values;
    }
  }

  lemma UpdateIdsKept(cfg: Config, s: State, step: Step)
    requires IdsOk(s) && s.dispatched == Wants(cfg, s.seen) && Enabled(cfg, s, step) && (step.Skip? || step.Take?)
    ensures
      var t := Apply(cfg, s, step);
      IdsOk(t) && t.dispatched == Wants(cfg, t.seen)
  {
    hide IdsOk;
    NextUpdateIds(s, Apply(cfg, s, step));
  }

  lemma OtherStepIds(cfg: Config, s: State, step: Step)
    requires Enabled(cfg, s, step) && !step.Skip? && !step.Take?
    ensures
      var t := Apply(cfg, s, step);
      && t.seen == s.seen && t.dispatched == s.dispatched && t.offset == s.offset
      && Rest(t.pc) == if step.Poll? then step.batch else Rest(s.pc)
  {
  }

  lemma IdsKept(cfg: Config, s: State, step: Step)
    requires IdsOk(s) && s.dispatched == Wants(cfg, s.seen) && Enabled(cfg, s, step)
    ensures
      var t := Apply(cfg, s, step);
      IdsOk(t) && t.dispatched == Wants(cfg, t.seen)
  {
    hide Apply, Wants, Rest, BatchFor;
    if step.Skip? || step.Take? {
      UpdateIdsKept(cfg, s, step);
    } else {
      OtherStepIds(cfg, s, step);
    }
  }

  /** Passing over one update of the batch, keeping or skipping its letter. */
  lemma NextUpdateIds(s: State, t: State)
    requires IdsOk(s) && s.pc.Batch? && s.pc.rest != []
    requires Rest(t.pc) == s.pc.rest[1..]
    requires t.offset == Max(s.offset, SaturatingSucc(s.pc.rest[0].id)) && t.seen == s.seen + [s.pc.rest[0]]
    requires t.dispatched == s.dispatched
          || (|t.dispatched| == |s.dispatched| + 1 && t.dispatched[..|s.dispatched|] == s.dispatched
              && t.dispatched[|s.dispatched|].id == s.pc.rest[0].id)
    ensures IdsOk(t) && t.seen[..|t.seen| - 1] == s.seen
  {
    assert t.offset == s.pc.rest[0].id + 1;
    forall i | 0 <= i < |s.dispatched| ensures t.dispatched[i] == s.dispatched[i] {
      assert t.dispatched != s.dispatched ==> t.dispatched[i] == t.dispatched[..|s.dispatched|][i];
    }
  }

  lemma PendingAfterSet(s: State, t: State, g: nat, chat: int)
    requires MapOk(s) && Open(s, g)
    requires |t.drivers| == |s.drivers| && t.senders == s.senders
    requires t.drivers[g].chat == s.drivers[g].chat
    requires t.drivers[g].phase.Gone? ==> t.drivers[g].inbox == []
    requires forall h :: 0 <= h < |s.drivers| && h != g ==> t.drivers[h] == s.drivers[h]
    ensures Pending(t, chat) == if chat == s.drivers[g].chat then Holding(t.drivers[g]) else Pending(s, chat)
    ensures chat == s.drivers[g].chat ==> Pending(s, chat) == Holding(s.drivers[g])
  {
    if chat != s.drivers[g].chat && chat in s.senders {
      assert s.drivers[s.senders[chat]].chat == chat;
    }
  }

  lemma ForSettled(settled: seq<Fate>, fates: seq<Fate>, own: int, chat: int)
    requires forall i :: 0 <= i < |fates| ==> fates[i].letter.chat == own
    ensures For(chat, Letters(settled + fates))
         == For(chat, Letters(settled)) + if chat == own then Letters(fates) else []
  {
    assert Letters(settled + fates) == Letters(settled) + Letters(fates);
    ForAppend(chat, Letters(settled), Letters(fates));
    ForOwn(own, Letters(fates));
  }

  lemma FatesOwned(d: Driver, fates: seq<Fate>, left: seq<Letter>)
    requires forall i :: 0 <= i < |d.inbox| ==> d.inbox[i].chat == d.chat
    requires d.phase.Turn? ==> d.phase.letter.chat == d.chat
    requires Letters(fates) + left == Holding(d)
    ensures forall i :: 0 <= i < |fates| ==> fates[i].letter.chat == d.chat
  {
    forall i | 0 <= i < |fates| ensures fates[i].letter.chat == d.chat {
      assert Letters(fates)[i] == Holding(d)[i];
    }
  }

  lemma Regroup<T>(all: seq<T>, a: seq<T>, done: seq<T>, left: seq<T>, held: seq<T>, hand: seq<T>)
    requires all == a + held + hand && done + left == held
    ensures all == (a + done) + left + hand
  {
  }

  /** Settling `fates` keeps the accounting of a chat when the settled letters and what
      its driver still holds make up what the driver held. */
  lemma SettleBalanced(s: State, t: State, fates: seq<Fate>, own: int, chat: int)
    requires Balanced(s, chat)
    requires t.pc == s.pc && t.dispatched == s.dispatched && t.settled == s.settled + fates
    requires forall i :: 0 <= i < |fates| ==> fates[i].letter.chat == own
    requires chat == own ==> Letters(fates) + Pending(t, chat) == Pending(s, chat)
    requires chat != own ==> Pending(t, chat) == Pending(s, chat)
    ensures Balanced(t, chat)
  {
    ForSettled(s.settled, fates, own, chat);
    if chat == own {
      Regroup(For(chat, s.dispatched), For(chat, Letters(s.settled)), Letters(fates),
              Pending(t, chat), Pending(s, chat), InHand(s, chat));
    } else {
      assert For(chat, Letters(s.settled)) + [] == For(chat, Letters(s.settled));
    }
  }

  lemma TurnStepSettles(cfg: Config, s: State, step: Step)
    requires Enabled(cfg, s, step)
    requires step.Finish? || step.SendFails?
    ensures
      var t := Apply(cfg, s, step);
      var fates := t.settled[|s.settled|..];
      && Open(s, step.g)
      && t == SetDriver(s, step.g, t.drivers[step.g]).(settled := s.settled + fates)
      && t.drivers[step.g].chat == s.drivers[step.g].chat
      && (t.drivers[step.g].phase.Gone? ==> t.drivers[step.g].inbox == [])
      && Letters(fates) + Holding(t.drivers[step.g]) == Holding(s.drivers[step.g])
  {
    var t := Apply(cfg, s, step);
    var d := s.drivers[step.g];
    if step.Finish? {
      assert t.settled[|s.settled|..] == [Handled(d.phase.letter)];
    } else {
      assert t.settled[|s.settled|..] == [Handled(d.phase.letter)] + AllLost(d.inbox);
    }
  }

  lemma IdleStepSettles(cfg: Config, s: State, step: Step)
    requires Enabled(cfg, s, step)
    requires step.Receive? || step.IdleTimer? || step.RetireCheck?
    ensures
      var t := Apply(cfg, s, step);
      var fates := t.settled[|s.settled|..];
      && Open(s, step.g)
      && t == SetDriver(s, step.g, t.drivers[step.g]).(settled := s.settled + fates)
      && t.drivers[step.g].chat == s.drivers[step.g].chat
      && (t.drivers[step.g].phase.Gone? ==> t.drivers[step.g].inbox == [])
      && Letters(fates) + Holding(t.drivers[step.g]) == Holding(s.drivers[step.g])
  {
    assert Apply(cfg, s, step).settled[|s.settled|..] == [];
  }

  lemma DriverStepSettles(cfg: Config, s: State, step: Step)
    requires Enabled(cfg, s, step)
    requires step.Receive? || step.IdleTimer? || step.RetireCheck? || step.Finish? || step.SendFails?
    ensures
      var t := Apply(cfg, s, step);
      var fates := t.settled[|s.settled|..];
      && Open(s, step.g)
      && t == SetDriver(s, step.g, t.drivers[step.g]).(settled := s.settled + fates)
      && t.drivers[step.g].chat == s.drivers[step.g].chat
      && (t.drivers[step.g].phase.Gone? ==> t.drivers[step.g].inbox == [])
      && Letters(fates) + Holding(t.drivers[step.g]) == Holding(s.drivers[step.g])
  {
    if step.Finish? || step.SendFails? {
      TurnStepSettles(cfg, s, step);
    } else {
      IdleStepSettles(cfg, s, step);
    }
  }

  lemma DriverStepBalanced(cfg: Config, s: State, step: Step, chat: int)
    requires Structure(s) && Enabled(cfg, s, step) && Balanced(s, chat)
    requires step.Receive? || step.IdleTimer? || step.RetireCheck? || step.Finish? || step.SendFails?
    ensures Balanced(Apply(cfg, s, step), chat)
  {
    var t := Apply(cfg, s, step);
    DriverStepSettles(cfg, s, step);
    assert DriverOk(s, step.g);
    var fates := t.settled[|s.settled|..];
    FatesOwned(s.drivers[step.g], fates, Holding(t.drivers[step.g]));
    PendingAfterSet(s, t, step.g, chat);
    SettleBalanced(s, t, fates, s.drivers[step.g].chat, chat);
  }

  lemma DispatcherStepBalanced(cfg: Config, s: State, step: Step, chat: int)
    requires Structure(s) && Enabled(cfg, s, step) && Balanced(s, chat)
    requires step.Poll? || step.Skip? || step.EndBatch? || step.Deliver? || step.Redeliver?
    ensures Balanced(Apply(cfg, s, step), chat)
  {
    hide MapOk, DriverOk, DeliveryOk, Pending, Letters, For, InHand;
    var t := Apply(cfg, s, step);
    if step.Deliver? || step.Redeliver? {
      SentPending(cfg, s, step, chat);
    } else {
      WalkPending(cfg, s, step, chat);
    }
    var done := For(chat, Letters(s.settled));
    assert done + Pending(s, chat) + InHand(s, chat) == done + (Pending(s, chat) + InHand(s, chat));
    assert done + Pending(t, chat) + InHand(t, chat) == done + (Pending(t, chat) + InHand(t, chat));
  }

  lemma WalkPending(cfg: Config, s: State, step: Step, chat: int)
    requires Enabled(cfg, s, step) && (step.Poll? || step.Skip? || step.EndBatch?)
    ensures
      var t := Apply(cfg, s, step);
      Pending(s, chat) + InHand(s, chat) == Pending(t, chat) + InHand(t, chat)
  {
  }

  lemma SentPending(cfg: Config, s: State, step: Step, chat: int)
    requires Structure(s) && Enabled(cfg, s, step) && (step.Deliver? || step.Redeliver?)
    ensures
      var t := Apply(cfg, s, step);
      Pending(s, chat) + InHand(s, chat) == Pending(t, chat) + InHand(t, chat)
  {
    var t := Apply(cfg, s, step);
    var d := s.drivers[s.pc.gen];
    assert DriverOk(s, s.pc.gen);
    if chat != s.pc.letter.chat {
      assert Pending(s, chat) == Pending(t, chat);
    } else if step.Deliver? {
      assert Pending(s, chat) == Holding(d);
      assert Pending(t, chat) == Holding(d) + [s.pc.letter];
    } else {
      assert Pending(s, chat) == [];
      assert Pending(t, chat) == [s.pc.letter];
    }
  }

  lemma TakePending(s: State, chat: int)
    requires Structure(s) && s.pc.Batch? && s.pc.rest != [] && s.pc.rest[0].message.Some?
    ensures Pending(ApplyTake(s), chat) == Pending(s, chat)
  {
    var t := ApplyTake(s);
    var c := ToLetter(s.pc.rest[0]).chat;
    if chat == c {
      if c in s.senders && Open(s, s.senders[c]) {
        assert Holding(t.drivers[s.senders[c]]) == Holding(s.drivers[s.senders[c]]);
      } else {
        assert Holding(t.drivers[|s.drivers|]) == [];
      }
    } else if chat in s.senders {
      assert s.senders[chat] < |s.drivers| && s.drivers[s.senders[chat]].chat == chat;
      assert t.drivers[s.senders[chat]] == s.drivers[s.senders[chat]];
    }
  }

  lemma TakeBalanced(cfg: Config, s: State, chat: int)
    requires Structure(s) && Enabled(cfg, s, Take) && Balanced(s, chat)
    ensures Balanced(Apply(cfg, s, Take), chat)
  {
    hide MapOk, DriverOk, DeliveryOk, Pending, Letters, For;
    var letter := ToLetter(s.pc.rest[0]);
    ForAppend(chat, s.dispatched, [letter]);
    ForOwn(letter.chat, [letter]);
    TakePending(s, chat);
  }

  lemma InvKept(cfg: Config, s: State, step: Step)
    requires Inv(cfg, s) && Enabled(cfg, s, step)
    ensures Inv(cfg, Apply(cfg, s, step))
  {
    StructureKept(cfg, s, step);
    IdsKept(cfg, s, step);
    forall chat ensures Balanced(Apply(cfg, s, step), chat) {
      assert Balanced(s, chat);
      match step
      case Take => TakeBalanced(cfg, s, chat);
      case Disconnect(g) => DisconnectNeverEnabled(cfg, s, g);
      case Poll(_) => DispatcherStepBalanced(cfg, s, step, chat);
      case Skip => DispatcherStepBalanced(cfg, s, step, chat);
      case EndBatch => DispatcherStepBalanced(cfg, s, step, chat);
      case Deliver => DispatcherStepBalanced(cfg, s, step, chat);
      case Redeliver => DispatcherStepBalanced(cfg, s, step, chat);
      case _ => DriverStepBalanced(cfg, s, step, chat);
    }
  }

  /** The invariant holds after every run. */
  lemma {:induction false} InvAfter(cfg: Config, run: seq<Step>)
    requires After(cfg, run).Some?
    ensures Inv(cfg, After(cfg, run).value)
  {
    hide Inv, Apply, Enabled;
    if run == [] {
      InvAtStart(cfg);
    } else {
      var front := run[..|run| - 1];
      InvAfter(cfg, front);
      InvKept(cfg, After(cfg, front).value, run[|run| - 1]);
    }
  }

  lemma InvAtStart(cfg: Config)
    ensures Inv(cfg, INIT)
  {
    hide Letters;
    forall chat
      ensures Balanced(INIT, chat)
    {
      NoLetters();
    }
  }

  lemma NoLetters()
    ensures Letters([]) == []
  {
  }

  // ---------------------------------------------------------------- safety of whole runs

  /** Every wanted message is in exactly one place, in dispatch order: settled, then
      held by the chat's open driver, then in the dispatcher's hand. */
  lemma EveryLetterInOnePlace(cfg: Config, run: seq<Step>, chat: int)
    requires After(cfg, run).Some?
    ensures
      var s := After(cfg, run).value;
      For(chat, Wants(cfg, s.seen)) == For(chat, Letters(s.settled)) + Pending(s, chat) + InHand(s, chat)
  {
    InvAfter(cfg, run);
    assert Balanced(After(cfg, run).value, chat);
  }

  /** At most one driver of a chat is open, it is the one the dispatcher's map holds,
      and a driver that ended holds no letter. */
  lemma OneOpenDriver(cfg: Config, run: seq<Step>, g: nat, h: nat)
    requires After(cfg, run).Some?
    requires g < |After(cfg, run).value.drivers| && h < |After(cfg, run).value.drivers|
    ensures
      var s := After(cfg, run).value;
      && (Open(s, g) && Open(s, h) && s.drivers[g].chat == s.drivers[h].chat ==> g == h)
      && (Open(s, g) ==> s.drivers[g].chat in s.senders && s.senders[s.drivers[g].chat] == g)
      && (!Open(s, g) ==> Holding(s.drivers[g]) == [])
      && |s.drivers[g].inbox| <= INBOX_CAPACITY
      && !Enabled(cfg, s, Disconnect(g))
  {
    InvAfter(cfg, run);
    var s := After(cfg, run).value;
    assert DriverOk(s, g);
    DisconnectNeverEnabled(cfg, s, g);
  }

  lemma {:induction false} ForAscending(chat: int, letters: seq<Letter>)
    requires forall i, j :: 0 <= i < j < |letters| ==> letters[i].id < letters[j].id
    ensures forall l :: l in For(chat, letters) ==> l in letters
    ensures forall i, j :: 0 <= i < j < |For(chat, letters)| ==> For(chat, letters)[i].id < For(chat, letters)[j].id
  {
    if letters != [] {
      var front := letters[..|letters| - 1];
      ForAscending(chat, front);
      forall l | l in For(chat, front) ensures l.id < letters[|letters| - 1].id {
        var k :| 0 <= k < |front| && front[k] == l;
        assert letters[k] == l;
      }
    }
  }

  /** A chat's letters settle in update order, and none settles twice. */
  lemma SettledInOrderOnce(cfg: Config, run: seq<Step>, chat: int)
    requires After(cfg, run).Some?
    ensures
      var done := For(chat, Letters(After(cfg, run).value.settled));
      forall i, j :: 0 <= i < j < |done| ==> done[i].id < done[j].id
  {
    InvAfter(cfg, run);
    var s := After(cfg, run).value;
    assert Balanced(s, chat);
    ForAscending(chat, s.dispatched);
    var done := For(chat, Letters(s.settled));
    var all := For(chat, s.dispatched);
    assert forall i :: 0 <= i < |done| ==> all[i] == done[i];
  }

  // ---------------------------------------------------------------- when nothing is lost

  /** The run never ends a driver of `chat` by a failed reply while letters wait in its inbox. */
  ghost predicate NoFailureOverQueue(cfg: Config, run: seq<Step>, chat: int)
    requires After(cfg, run).Some?
  {
    if run == [] then true
    else
      var front := run[..|run| - 1];
      var last := run[|run| - 1];
      && NoFailureOverQueue(cfg, front, chat)
      && (last.SendFails? && After(cfg, front).value.drivers[last.g].chat == chat ==>
            After(cfg, front).value.drivers[last.g].inbox == [])
  }

  lemma NoneLostAppend(chat: int, a: seq<Fate>, b: seq<Fate>)
    ensures NoneLost(chat, a + b) <==> NoneLost(chat, a) && NoneLost(chat, b)
  {
    assert forall i :: 0 <= i < |a| ==> (a + b)[i] == a[i];
    assert forall i :: 0 <= i < |b| ==> b[i] == (a + b)[|a| + i];
  }

  /** A step loses letters of a chat only as a failed reply over a non-empty inbox. */
  lemma StepLoses(cfg: Config, s: State, step: Step, chat: int) returns (fates: seq<Fate>)
    requires Structure(s) && Enabled(cfg, s, step)
    ensures Apply(cfg, s, step).settled == s.settled + fates
    ensures NoneLost(chat, fates) <==>
      (step.SendFails? && s.drivers[step.g].chat == chat ==> s.drivers[step.g].inbox == [])
  {
    if step.SendFails? {
      var d := s.drivers[step.g];
      assert DriverOk(s, step.g);
      fates := [Handled(d.phase.letter)] + AllLost(d.inbox);
      if d.inbox != [] {
        assert fates[1] == Lost(d.inbox[0]);
      }
    } else if step.Finish? {
      fates := [Handled(s.drivers[step.g].phase.letter)];
    } else {
      fates := [];
    }
  }

  lemma {:induction false} NoneLostIff(cfg: Config, run: seq<Step>, chat: int)
    requires After(cfg, run).Some?
    ensures NoneLost(chat, After(cfg, run).value.settled) <==> NoFailureOverQueue(cfg, run, chat)
  {
    if run != [] {
      var front := run[..|run| - 1];
      NoneLostIff(cfg, front, chat);
      InvAfter(cfg, front);
      var s := After(cfg, front).value;
      var fates := StepLoses(cfg, s, run[|run| - 1], chat);
      NoneLostAppend(chat, s.settled, fates);
    }
  }

  /** The no-loss claim of the design and exactly when it holds: what was handled, is
      held by the open driver or is in hand makes up everything wanted, in order, if and
      only if no reply failed while letters were queued behind it. */
  lemma NothingDroppedIff(cfg: Config, run: seq<Step>, chat: int)
    requires After(cfg, run).Some?
    ensures
      var s := After(cfg, run).value;
      (For(chat, Wants(cfg, s.seen)) == HandledFor(chat, s.settled) + Pending(s, chat) + InHand(s, chat))
      <==> NoFailureOverQueue(cfg, run, chat)
  {
    EveryLetterInOnePlace(cfg, run, chat);
    NoneLostIff(cfg, run, chat);
    HandledWhenNoneLost(chat, After(cfg, run).value.settled);
  }
}
