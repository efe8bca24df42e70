/** The Telegram dispatcher and its per-chat driver tasks, as a transition system.

    One dispatcher polls for updates and feeds each chat's driver task through a
    bounded inbox.  A driver that stays idle retires itself.  A driver also ends
    when delivering a reply fails.  Code between two awaits runs on one thread and
    is one atomic step here.
  */
module ChatDrivers {

  import opened Wrappers

  const INBOX_CAPACITY: nat := 64
  const I64_MAX: int := 0x7fff_ffff_ffff_ffff

  /** What a message holds: text the agent answers, voice or audio handled inside
      `recv`, or anything else (answered with a fixed notice or dropped there). */
  datatype Kind = Text | Voice | Unsupported

  datatype Message = Message(chat: int, fromBot: bool, kind: Kind)

  datatype Update = Update(id: int, message: Option<Message>)

  /** An accepted message on its way to a chat's driver. */
  datatype Letter = Letter(id: int, chat: int, kind: Kind)

  /** What finally became of a letter. */
  datatype Fate = Handled(letter: Letter) | Lost(letter: Letter)

  datatype Config = Config(allowAllChats: bool, allowedChats: set<int>)

  datatype Party = Dispatcher | DriverTask

  /** A driver task is waiting on its inbox, queued on its gate to retire, in the
      middle of a turn, or has ended (its inbox is then closed). */
  datatype Phase = Waiting | AtGate | Turn(letter: Letter) | Gone

  /** `gate` is the FIFO queue of a fair mutex; its head holds the lock. */
  datatype Driver = Driver(chat: int, phase: Phase, inbox: seq<Letter>, gate: seq<Party>)

  /** The dispatcher awaits updates, walks a batch, or is delivering one letter to
      driver `gen`: from queueing on its gate until the send has completed. */
  datatype Pc = Polling | Batch(rest: seq<Update>) | Delivering(letter: Letter, gen: nat, rest: seq<Update>)

  /** `senders` is the dispatcher's map; `drivers` lists every driver ever spawned.
      `seen`, `dispatched` and `settled` record history and steer nothing. */
  datatype State = State(
    pc: Pc,
    offset: int,
    senders: map<int, nat>,
    drivers: seq<Driver>,
    seen: seq<Update>,
    dispatched: seq<Letter>,
    settled: seq<Fate>)

  const INIT := State(Polling, 0, map[], [], [], [], [])

  /** One atomic step.  The last six are taken by driver `g`. */
  datatype Step =
    | Poll(batch: seq<Update>)
    | Skip
    | Take
    | EndBatch
    | Deliver
    | Redeliver
    | Receive(g: nat)
    | IdleTimer(g: nat)
    | RetireCheck(g: nat)
    | Disconnect(g: nat)
    | Finish(g: nat)
    | SendFails(g: nat)

  // ---------------------------------------------------------------- steps

  predicate Wanted(cfg: Config, u: Update) {
    && u.message.Some?
    && !u.message.value.fromBot
    && (cfg.allowAllChats || u.message.value.chat in cfg.allowedChats)
  }

  function ToLetter(u: Update): Letter
    requires u.message.Some?
  {
    Letter(u.id, u.message.value.chat, u.message.value.kind)
  }

  function Max(a: int, b: int): int {
    if a < b then b else a
  }

  function SaturatingSucc(a: int): int {
    if a >= I64_MAX then I64_MAX else a + 1
  }

  predicate Open(s: State, g: nat) {
    g < |s.drivers| && !s.drivers[g].phase.Gone?
  }

  /** A batch as the Bot API returns it for `offset`: ids ascending, none below it. */
  predicate BatchFor(offset: int, batch: seq<Update>) {
    && (forall i :: 0 <= i < |batch| ==> offset <= batch[i].id < I64_MAX)
    && (forall i, j :: 0 <= i < j < |batch| ==> batch[i].id < batch[j].id)
  }

  predicate HoldsGate(s: State) {
    && s.pc.Delivering?
    && s.pc.gen < |s.drivers|
    && s.drivers[s.pc.gen].gate != []
    && s.drivers[s.pc.gen].gate[0] == Dispatcher
  }

  predicate Enabled(cfg: Config, s: State, step: Step) {
    match step
    case Poll(batch) => s.pc.Polling? && BatchFor(s.offset, batch)
    case Skip => s.pc.Batch? && s.pc.rest != [] && !Wanted(cfg, s.pc.rest[0])
    case Take => s.pc.Batch? && s.pc.rest != [] && Wanted(cfg, s.pc.rest[0])
    case EndBatch => s.pc.Batch? && s.pc.rest == []
    case Deliver => HoldsGate(s) && Open(s, s.pc.gen) && |s.drivers[s.pc.gen].inbox| < INBOX_CAPACITY
    case Redeliver => HoldsGate(s) && !Open(s, s.pc.gen)
    case Receive(g) => g < |s.drivers| && s.drivers[g].phase.Waiting? && s.drivers[g].inbox != []
    // `timeout` polls the wrapped `recv` first, so the timer wins only on an empty inbox.
    case IdleTimer(g) => g < |s.drivers| && s.drivers[g].phase.Waiting? && s.drivers[g].inbox == []
    case RetireCheck(g) =>
      g < |s.drivers| && s.drivers[g].phase.AtGate? && s.drivers[g].gate != [] && s.drivers[g].gate[0] == DriverTask
    // `recv` yields `None` once every sender is dropped and the inbox is drained.
    case Disconnect(g) =>
      && g < |s.drivers| && s.drivers[g].phase.Waiting? && s.drivers[g].inbox == []
      && g !in s.senders.Values
      && !(s.pc.Delivering? && s.pc.gen == g)
    case Finish(g) => g < |s.drivers| && s.drivers[g].phase.Turn?
    // Only a text turn sends its reply through `Channel::send`.
    case SendFails(g) => g < |s.drivers| && s.drivers[g].phase.Turn? && s.drivers[g].phase.letter.kind.Text?
  }

  function AllLost(letters: seq<Letter>): seq<Fate> {
    seq(|letters|, i requires 0 <= i < |letters| => Lost(letters[i]))
  }

  function SetDriver(s: State, g: nat, d: Driver): State
    requires g < |s.drivers|
  {
    s.(drivers := s.drivers[g := d])
  }

  /** Take the next update from the batch: find or spawn its chat's driver and
      queue on that driver's gate. */
  function ApplyTake(s: State): State
    requires s.pc.Batch? && s.pc.rest != [] && s.pc.rest[0].message.Some?
  {
    var u := s.pc.rest[0];
    var letter := ToLetter(u);
    var t := s.(
      offset := Max(s.offset, SaturatingSucc(u.id)),
      seen := s.seen + [u],
      dispatched := s.dispatched + [letter]);
    if letter.chat in s.senders && Open(s, s.senders[letter.chat]) then
      var g := s.senders[letter.chat];
      var d := s.drivers[g];
      SetDriver(t, g, d.(gate := d.gate + [Dispatcher])).(pc := Delivering(letter, g, s.pc.rest[1..]))
    else
      t.(
        pc := Delivering(letter, |s.drivers|, s.pc.rest[1..]),
        senders := s.senders[letter.chat := |s.drivers|],
        drivers := s.drivers + [Driver(letter.chat, Waiting, [], [Dispatcher])])
  }

  function Apply(cfg: Config, s: State, step: Step): State
    requires Enabled(cfg, s, step)
  {
    match step
    case Poll(batch) =>
      s.(pc := Batch(batch), senders := map c | c in s.senders && Open(s, s.senders[c]) :: s.senders[c])
    case Skip =>
      var u := s.pc.rest[0];
      s.(pc := Batch(s.pc.rest[1..]), offset := Max(s.offset, SaturatingSucc(u.id)), seen := s.seen + [u])
    case Take => ApplyTake(s)
    case EndBatch => s.(pc := Polling)
    case Deliver =>
      var g := s.pc.gen;
      var d := s.drivers[g];
      SetDriver(s, g, d.(inbox := d.inbox + [s.pc.letter], gate := d.gate[1..])).(pc := Batch(s.pc.rest))
    case Redeliver =>
      // The send handed the letter back; a fresh driver's empty inbox takes it at once.
      var g := s.pc.gen;
      var d := s.drivers[g];
      var t := SetDriver(s, g, d.(gate := d.gate[1..]));
      t.(
        pc := Batch(s.pc.rest),
        drivers := t.drivers + [Driver(s.pc.letter.chat, Waiting, [s.pc.letter], [])],
        senders := s.senders[s.pc.letter.chat := |s.drivers|])
    case Receive(g) =>
      var d := s.drivers[g];
      SetDriver(s, g, d.(phase := Turn(d.inbox[0]), inbox := d.inbox[1..]))
    case IdleTimer(g) =>
      var d := s.drivers[g];
      SetDriver(s, g, d.(phase := AtGate, gate := d.gate + [DriverTask]))
    case RetireCheck(g) =>
      var d := s.drivers[g];
      if d.inbox != [] then
        SetDriver(s, g, d.(phase := Turn(d.inbox[0]), inbox := d.inbox[1..], gate := d.gate[1..]))
      else
        SetDriver(s, g, d.(phase := Gone, gate := d.gate[1..]))
    case Disconnect(g) =>
      SetDriver(s, g, s.drivers[g].(phase := Gone))
    case Finish(g) =>
      var d := s.drivers[g];
      SetDriver(s, g, d.(phase := Waiting)).(settled := s.settled + [Handled(d.phase.letter)])
    case SendFails(g) =>
      // `serve_channel` returns the error; dropping the receiver drops what it buffered.
      var d := s.drivers[g];
      SetDriver(s, g, d.(phase := Gone, inbox := [])).(
        settled := s.settled + [Handled(d.phase.letter)] + AllLost(d.inbox))
  }

  // ---------------------------------------------------------------- runs

  /** The state a sequence of steps leads to, or none when some step was not enabled. */
  function After(cfg: Config, run: seq<Step>): Option<State> {
    if run == [] then Some(INIT)
    else
      var before := After(cfg, run[..|run| - 1]);
      var step := run[|run| - 1];
      if before.Some? && Enabled(cfg, before.value, step)
      then Some(Apply(cfg, before.value, step))
      else None
  }

  // ---------------------------------------------------------------- projections

  /** The letters of one chat, in order. */
  function For(chat: int, letters: seq<Letter>): seq<Letter> {
    if letters == [] then []
    else
      var last := letters[|letters| - 1];
      For(chat, letters[..|letters| - 1]) + (if last.chat == chat then [last] else [])
  }

  function Letters(fates: seq<Fate>): seq<Letter> {
    seq(|fates|, i requires 0 <= i < |fates| => fates[i].letter)
  }

  /** The letters of one chat whose turn was handled, in order. */
  function HandledFor(chat: int, fates: seq<Fate>): seq<Letter> {
    if fates == [] then []
    else
      var last := fates[|fates| - 1];
      HandledFor(chat, fates[..|fates| - 1])
      + (if last.Handled? && last.letter.chat == chat then [last.letter] else [])
  }

  ghost predicate NoneLost(chat: int, fates: seq<Fate>) {
    forall i :: 0 <= i < |fates| && fates[i].letter.chat == chat ==> fates[i].Handled?
  }

  /** What an open driver holds: the letter being handled, then its inbox. */
  function Holding(d: Driver): seq<Letter> {
    (if d.phase.Turn? then [d.phase.letter] else []) + d.inbox
  }

  /** Letters of `chat` delivered to a driver that is still open and not yet settled. */
  function Pending(s: State, chat: int): seq<Letter> {
    if chat in s.senders && Open(s, s.senders[chat]) then Holding(s.drivers[s.senders[chat]]) else []
  }

  /** The letter of `chat` the dispatcher is still holding, if any. */
  function InHand(s: State, chat: int): seq<Letter> {
    if s.pc.Delivering? && s.pc.letter.chat == chat then [s.pc.letter] else []
  }

  function Wants(cfg: Config, seen: seq<Update>): seq<Letter> {
    if seen == [] then []
    else
      var last := seen[|seen| - 1];
      Wants(cfg, seen[..|seen| - 1]) + (if Wanted(cfg, last) then [ToLetter(last)] else [])
  }

  lemma {:induction false} ForAppend(chat: int, a: seq<Letter>, b: seq<Letter>)
    ensures For(chat, a + b) == For(chat, a) + For(chat, b)
    decreases |b|
  {
    if b == [] {
      assert a + b == a;
    } else {
      var front := b[..|b| - 1];
      ForAppend(chat, a, front);
      assert (a + b)[..|a + b| - 1] == a + front;
    }
  }

  lemma {:induction false} ForOwn(chat: int, letters: seq<Letter>)
    requires forall i :: 0 <= i < |letters| ==> letters[i].chat == chat
    ensures forall c :: For(c, letters) == if c == chat then letters else []
  {
    if letters != [] {
      ForOwn(chat, letters[..|letters| - 1]);
      assert letters == letters[..|letters| - 1] + [letters[|letters| - 1]];
    }
  }

  lemma {:induction false} HandledWhenNoneLost(chat: int, fates: seq<Fate>)
    ensures NoneLost(chat, fates) ==> HandledFor(chat, fates) == For(chat, Letters(fates))
    ensures |HandledFor(chat, fates)| <= |For(chat, Letters(fates))|
    ensures !NoneLost(chat, fates) ==> |HandledFor(chat, fates)| < |For(chat, Letters(fates))|
  {
    if fates != [] {
      var front := fates[..|fates| - 1];
      HandledWhenNoneLost(chat, front);
      assert Letters(fates)[..|fates| - 1] == Letters(front);
      assert NoneLost(chat, fates) ==> NoneLost(chat, front);
      if !NoneLost(chat, fates) && NoneLost(chat, front) {
        assert fates[|fates| - 1].Lost?;
      }
    }
  }
}
