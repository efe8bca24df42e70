/** Whose messages are served, told from the updates alone. */
module ChatDriverService {
  import opened ChatDrivers
  import opened ChatDriverSafety
  import opened Wrappers

  /** All updates the polls of a run returned, in order. */
  function Polled(run: seq<Step>): seq<Update> {
    if run == [] then []
    else
      var last := run[|run| - 1];
      Polled(run[..|run| - 1]) + if last.Poll? then last.batch else []
  }

  /** Every update is looked at once, in order, and none is passed over: what was polled is
      what was seen and then what is left of the batch. */
  lemma {:induction false} EveryUpdateSeen(cfg: Config, run: seq<Step>)
    requires After(cfg, run).Some?
    ensures
      var s := After(cfg, run).value;
      Polled(run) == s.seen + Rest(s.pc)
  {
    if run != [] {
      var front, step := run[..|run| - 1], run[|run| - 1];
      EveryUpdateSeen(cfg, front);
      StepSees(cfg, After(cfg, front).value, step);
    }
  }

  lemma StepSees(cfg: Config, s: State, step: Step)
    requires Enabled(cfg, s, step)
    ensures
      var t := Apply(cfg, s, step);
      t.seen + Rest(t.pc) == s.seen + Rest(s.pc) + if step.Poll? then step.batch else []
  {
    hide BatchFor, Wanted, ToLetter, AllLost, Open;
    if step.Skip? || step.Take? {
      assert s.pc.rest == [s.pc.rest[0]] + s.pc.rest[1..];
    } else if step.EndBatch? {
      assert s.seen + [] == s.seen;
    }
  }

  /** The update a letter was made from: not a bot's, and from a chat that is allowed. */
  predicate Origin(cfg: Config, u: Update, letter: Letter) {
    && u.message.Some?
    && !u.message.value.fromBot
    && (cfg.allowAllChats || u.message.value.chat in cfg.allowedChats)
    && letter.id == u.id
    && letter.chat == u.message.value.chat
    && letter.kind == u.message.value.kind
  }

  lemma {:induction false} WantsIff(cfg: Config, seen: seq<Update>, letter: Letter)
    ensures letter in Wants(cfg, seen) <==> exists i :: 0 <= i < |seen| && Origin(cfg, seen[i], letter)
  {
    if seen != [] {
      var front, last := seen[..|seen| - 1], seen[|seen| - 1];
      WantsIff(cfg, front, letter);
      if Origin(cfg, last, letter) {
        assert Wanted(cfg, last) && ToLetter(last) == letter;
      }
      if letter in Wants(cfg, front) {
        var i :| 0 <= i < |front| && Origin(cfg, front[i], letter);
        assert seen[i] == front[i];
      } else if letter in Wants(cfg, seen) {
        assert Origin(cfg, seen[|seen| - 1], letter);
      }
      if exists i :: 0 <= i < |seen| && Origin(cfg, seen[i], letter) {
        var i :| 0 <= i < |seen| && Origin(cfg, seen[i], letter);
        assert i < |front| ==> front[i] == seen[i];
      }
    }
  }

  /** The letters dispatched are exactly those of the seen updates that carry a message, not
      from a bot, of an allowed chat; their ids ascend; and the next poll asks for what
      follows the last update seen. */
  lemma ServedIff(cfg: Config, run: seq<Step>, letter: Letter)
    requires After(cfg, run).Some?
    ensures
      var s := After(cfg, run).value;
      && (letter in s.dispatched <==> exists i :: 0 <= i < |s.seen| && Origin(cfg, s.seen[i], letter))
      && (forall i, j :: 0 <= i < j < |s.dispatched| ==> s.dispatched[i].id < s.dispatched[j].id)
      && s.offset == (if s.seen == [] then 0 else s.seen[|s.seen| - 1].id + 1)
  {
    InvAfter(cfg, run);
    var s := After(cfg, run).value;
    WantsIff(cfg, s.seen, letter);
    OffsetFollows(cfg, run);
  }

  lemma {:induction false} OffsetFollows(cfg: Config, run: seq<Step>)
    requires After(cfg, run).Some?
    ensures
      var s := After(cfg, run).value;
      s.offset == if s.seen == [] then 0 else s.seen[|s.seen| - 1].id + 1
  {
    hide Apply, Enabled, IdsOk;
    if run != [] {
      var front, step := run[..|run| - 1], run[|run| - 1];
      OffsetFollows(cfg, front);
      IdsAfter(cfg, front);
      StepOffset(cfg, After(cfg, front).value, step);
    }
  }

  lemma IdsAfter(cfg: Config, run: seq<Step>)
    requires After(cfg, run).Some?
    ensures IdsOk(After(cfg, run).value)
  {
    InvAfter(cfg, run);
    hide After, IdsOk;
  }

  lemma StepOffset(cfg: Config, s: State, step: Step)
    requires IdsOk(s) && Enabled(cfg, s, step)
    ensures
      var t := Apply(cfg, s, step);
      if step.Skip? || step.Take? then t.seen == s.seen + [s.pc.rest[0]] && t.offset == s.pc.rest[0].id + 1
      else t.seen == s.seen && t.offset == s.offset
  {
  }

  lemma {:induction false} ForMember(chat: int, letters: seq<Letter>, letter: Letter)
    ensures letter in For(chat, letters) <==> letter in letters && letter.chat == chat
  {
    if letters != [] {
      ForMember(chat, letters[..|letters| - 1], letter);
      assert letters == letters[..|letters| - 1] + [letters[|letters| - 1]];
    }
  }

  /** Wherever a letter is found, it was dispatched. */
  lemma NothingElseServed(cfg: Config, run: seq<Step>, letter: Letter)
    requires After(cfg, run).Some?
    ensures
      var s := After(cfg, run).value;
      || letter in Letters(s.settled)
      || (exists g :: 0 <= g < |s.drivers| && letter in Holding(s.drivers[g]))
      || (s.pc.Delivering? && s.pc.letter == letter)
      ==> letter in s.dispatched
  {
    InvAfter(cfg, run);
    var s := After(cfg, run).value;
    var chat := letter.chat;
    assert Balanced(s, chat);
    ForMember(chat, s.dispatched, letter);
    ForMember(chat, Letters(s.settled), letter);
    if exists g :: 0 <= g < |s.drivers| && letter in Holding(s.drivers[g]) {
      var g :| 0 <= g < |s.drivers| && letter in Holding(s.drivers[g]);
      assert DriverOk(s, g);
      HoldsOwn(s, g, letter);
    }
  }

  lemma HoldsOwn(s: State, g: nat, letter: Letter)
    requires MapOk(s) && g < |s.drivers| && DriverOk(s, g) && letter in Holding(s.drivers[g])
    ensures letter in Pending(s, letter.chat)
  {
    assert letter.chat == s.drivers[g].chat;
  }

  /** A send waits for room exactly while 64 letters are in the inbox. */
  lemma RoomForSixtyFour(cfg: Config, s: State)
    requires HoldsGate(s) && Open(s, s.pc.gen)
    ensures Enabled(cfg, s, Deliver) <==> |s.drivers[s.pc.gen].inbox| < 64
  {
  }

  /** A poll forgets the chats whose drivers have ended, and only those. */
  lemma PollForgets(cfg: Config, s: State, batch: seq<Update>, chat: int)
    requires Enabled(cfg, s, Poll(batch))
    ensures
      var t := Apply(cfg, s, Poll(batch));
      && (chat in t.senders <==> chat in s.senders && Open(s, s.senders[chat]))
      && (chat in t.senders ==> t.senders[chat] == s.senders[chat])
  {
  }
}
