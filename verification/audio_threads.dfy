/** The same ring with the two threads interleaved step by step, one access to shared memory at a time. */
module AudioThreads {
  import opened Basics
  import opened Audio

  /** The CPU thread inside a port write: the timestamp is stored, or the head is moved but the port is not set yet. */
  datatype Writer = Idle | Stored(value: byte, timestamp: nat) | Moved(value: byte)

  /**
   * The callback's thread inside its inner loop: the ring was seen not to be empty, its front toggle was seen
   * to have elapsed, or the tail is past it already.
   */
  datatype Player = Resting | Nonempty | Seen | Passed

  datatype State = State(slots: seq<nat>, head: nat, tail: nat, port: byte, speaker: byte,
                         writer: Writer, player: Player,
                         recorded: seq<nat>, consumed: seq<nat>, overflowed: bool)

  /**
   * A port write begins, or goes on; the callback looks at the head, compares the front timestamp with its
   * clock, or goes on. Each event reads or writes at most one place that the other thread writes or reads:
   * only the callback writes the tail, so reading it there is no access of its own.
   */
  datatype Event = Out(value: byte, timestamp: nat) | WriterStep | Look | Compare(time: nat) | PlayerStep

  predicate InRange(s: State) {
    |s.slots| == BUFFER_SIZE && s.head < BUFFER_SIZE && s.tail < BUFFER_SIZE
  }

  function WriterNext(s: State): (s': State)
    requires InRange(s)
    ensures InRange(s')
  {
    match s.writer
    case Idle => s
    case Stored(value, timestamp) =>
      var head' := NextIndex(s.head);
      s.(head := head', recorded := s.recorded + [timestamp], writer := Moved(value),
         overflowed := s.overflowed || head' == s.tail)
    case Moved(value) => s.(port := value, writer := Idle)
  }

  function PlayerNext(s: State): (s': State)
    requires InRange(s)
    ensures InRange(s')
  {
    match s.player
    case Resting => s
    case Nonempty => s
    case Seen => s.(tail := NextIndex(s.tail), consumed := s.consumed + [s.slots[s.tail]], player := Passed)
    case Passed => s.(speaker := 0xFF - s.speaker, player := Resting)
  }

  /** Either thread may take its next step at any moment; an event that is not due changes nothing. */
  function Next(s: State, e: Event): (s': State)
    requires InRange(s)
    ensures InRange(s')
  {
    match e
    case Out(value, timestamp) =>
      if !s.writer.Idle? then s
      else if SpeakerBit(value) == SpeakerBit(s.port) then s.(port := value)
      else s.(slots := s.slots[s.head := timestamp], writer := Stored(value, timestamp))
    case WriterStep => WriterNext(s)
    case Look => if s.player.Resting? && s.head != s.tail then s.(player := Nonempty) else s
    case Compare(time) =>
      if s.player.Nonempty? then s.(player := if s.slots[s.tail] < time then Seen else Resting) else s
    case PlayerStep => PlayerNext(s)
  }

  function Start(): State {
    State(seq(BUFFER_SIZE, _ => 0), 0, 0, 0, 0, Idle, Resting, [], [], false)
  }

  function Steps(s: State, events: seq<Event>): (s': State)
    requires InRange(s)
    ensures InRange(s')
  {
    if events == [] then s else Next(Steps(s, events[..|events| - 1]), events[|events| - 1])
  }

  function Run(events: seq<Event>): (s: State)
    ensures InRange(s)
  {
    Steps(Start(), events)
  }

  // ---------------------------------------------------------------- what one thread does, whatever the other does

  /** Events of the callback's thread. */
  predicate Plays(e: Event) {
    e.Look? || e.Compare? || e.PlayerStep?
  }

  /** The callback's thread changes nothing that port writes depend on. */
  lemma {:induction false} PlayerOnly(s: State, events: seq<Event>)
    requires InRange(s) && forall e | e in events :: Plays(e)
    ensures var s' := Steps(s, events);
            && s'.slots == s.slots && s'.head == s.head && s'.port == s.port
            && s'.writer == s.writer && s'.recorded == s.recorded
  {
    if events != [] {
      var e := events[|events| - 1];
      assert e in events && Plays(e);
      PlayerOnly(s, events[..|events| - 1]);
    }
  }

  lemma {:induction false} StepsAppend(s: State, a: seq<Event>, b: seq<Event>)
    requires InRange(s)
    ensures Steps(s, a + b) == Steps(Steps(s, a), b)
    decreases |b|
  {
    if b == [] {
      assert a + b == a;
    } else {
      StepsAppend(s, a, b[..|b| - 1]);
      assert (a + b)[..|a + b| - 1] == a + b[..|b| - 1];
    }
  }

  lemma OneStep(s: State, events: seq<Event>, e: Event)
    requires InRange(s)
    ensures Steps(s, events + [e]) == Next(Steps(s, events), e)
  {
    assert (events + [e])[..|events|] == events;
  }

  /** A write that toggles the gate stores its timestamp and then sets the port, whatever the callback does. */
  lemma WriteLands(s: State, value: byte, timestamp: nat, ps: seq<Event>, qs: seq<Event>)
    requires InRange(s) && s.writer.Idle? && value / 2 % 2 != s.port / 2 % 2
    requires forall e | e in ps + qs :: Plays(e)
    ensures var s' := Steps(s, [Out(value, timestamp)] + ps + [WriterStep] + qs + [WriterStep]);
            && s'.recorded == s.recorded + [timestamp] && s'.port == value && s'.writer.Idle?
            && s'.slots == s.slots[s.head := timestamp]
            && s'.head == if s.head == 0xFFFF then 0 else s.head + 1
  {
    assert Steps(s, []) == s;
    assert forall e | e in ps || e in qs :: e in ps + qs;
    hide Steps, PlayerNext, Plays;
    var out := [Out(value, timestamp)];
    OneStep(s, [], Out(value, timestamp));
    assert [] + out == out;
    StepsAppend(s, out, ps);
    PlayerOnly(Steps(s, out), ps);
    OneStep(s, out + ps, WriterStep);
    StepsAppend(s, out + ps + [WriterStep], qs);
    PlayerOnly(Steps(s, out + ps + [WriterStep]), qs);
    OneStep(s, out + ps + [WriterStep] + qs, WriterStep);
  }

  /** A write that does not toggle the gate only sets the port. */
  lemma WriteOnly(s: State, value: byte, timestamp: nat)
    requires InRange(s) && s.writer.Idle? && value / 2 % 2 == s.port / 2 % 2
    ensures Next(s, Out(value, timestamp)) == s.(port := value)
  {
  }

  /** A look at a ring that is not empty and a comparison: the front toggle is played iff it lies before the clock. */
  lemma FrontIsPlayed(s: State, time: nat)
    requires InRange(s) && s.player.Resting? && s.head != s.tail
    ensures Steps(s, [Look, Compare(time), PlayerStep, PlayerStep]) ==
            if s.slots[s.tail] >= time then s
            else s.(tail := if s.tail == 0xFFFF then 0 else s.tail + 1, consumed := s.consumed + [s.slots[s.tail]],
                    speaker := if s.speaker == 0xFF then 0 else 0xFF - s.speaker)
  {
    assert Steps(s, []) == s;
    hide Steps, WriterNext, InRange;
    OneStep(s, [], Look);
    OneStep(s, [Look], Compare(time));
    OneStep(s, [Look, Compare(time)], PlayerStep);
    OneStep(s, [Look, Compare(time), PlayerStep], PlayerStep);
    assert [] + [Look] == [Look] && [Look] + [Compare(time)] == [Look, Compare(time)];
    assert [Look, Compare(time)] + [PlayerStep] == [Look, Compare(time), PlayerStep];
    assert [Look, Compare(time), PlayerStep] + [PlayerStep] == [Look, Compare(time), PlayerStep, PlayerStep];
  }

  // ---------------------------------------------------------------- every interleaving

  /** The toggles counted by the port: a write under way counts once it has moved the head. */
  predicate PortAgrees(s: State) {
    match s.writer
    case Idle => SpeakerBit(s.port) <==> |s.recorded| % 2 == 1
    case Stored(value, _) =>
      (SpeakerBit(s.port) <==> |s.recorded| % 2 == 1) && (SpeakerBit(value) <==> !SpeakerBit(s.port))
    case Moved(value) => SpeakerBit(value) <==> |s.recorded| % 2 == 1
  }

  /** A toggle passed but not played yet is consumed already, and still missing from the speaker. */
  predicate SpeakerAgrees(s: State) {
    match s.player
    case Resting => s.speaker == Speaker(|s.consumed|)
    case Nonempty => s.speaker == Speaker(|s.consumed|) && s.head != s.tail
    case Seen => s.speaker == Speaker(|s.consumed|) && s.head != s.tail
    case Passed => s.consumed != [] && s.speaker == Speaker(|s.consumed| - 1)
  }

  predicate Sound(s: State) {
    && InRange(s) && PortAgrees(s) && SpeakerAgrees(s)
    && s.recorded == s.consumed + QueueOf(s.slots, s.head, s.tail)
    && (s.writer.Stored? ==> s.slots[s.head] == s.writer.timestamp)
  }

  lemma WriterKeeps(s: State)
    requires Sound(s) && !WriterNext(s).overflowed
    ensures Sound(WriterNext(s))
  {
    hide SpeakerBit, Speaker, QueueOf, NextIndex;
    if s.writer.Stored? {
      QueueGrows(s.slots, s.head, s.tail, s.writer.timestamp);
      assert s.slots[s.head := s.writer.timestamp] == s.slots;
      QueueShrinks(s.slots, NextIndex(s.head), s.tail);
    }
  }

  lemma PlayerKeeps(s: State)
    requires Sound(s)
    ensures Sound(PlayerNext(s))
  {
    hide SpeakerBit, QueueOf;
    QueueShrinks(s.slots, s.head, s.tail);
    if s.player.Seen? {
      var t, rest := s.slots[s.tail], QueueOf(s.slots, s.head, NextIndex(s.tail));
      assert s.consumed + ([t] + rest) == s.consumed + [t] + rest;
    }
  }

  lemma NextKeeps(s: State, e: Event)
    requires Sound(s) && !Next(s, e).overflowed
    ensures Sound(Next(s, e))
  {
    hide Speaker, QueueOf, NextIndex, WriterNext, PlayerNext;
    match e
    case Out(value, timestamp) => QueueGrows(s.slots, s.head, s.tail, timestamp);
    case WriterStep => WriterKeeps(s);
    case Look =>
    case Compare(_) =>
    case PlayerStep => PlayerKeeps(s);
  }

  lemma StartSound()
    ensures Sound(Start())
  {
  }

  lemma OverflowStays(s: State, e: Event)
    requires InRange(s)
    ensures s.overflowed ==> Next(s, e).overflowed
  {
  }

  /**
   * However the steps of the two threads interleave, unless the ring overflows: what was recorded is what
   * was consumed followed by what is queued, in order, and speaker and port have seen just these toggles.
   */
  lemma {:induction false} AnyInterleaving(events: seq<Event>)
    requires !Run(events).overflowed
    ensures Sound(Run(events))
  {
    hide Sound, Next;
    if events == [] {
      StartSound();
    } else {
      var before, e := events[..|events| - 1], events[|events| - 1];
      OverflowStays(Run(before), e);
      AnyInterleaving(before);
      NextKeeps(Run(before), e);
    }
  }

  /** Whenever both threads are between operations and the ring is empty, the speaker agrees with the port. */
  lemma SilenceAgrees(events: seq<Event>)
    requires var s := Run(events); !s.overflowed && s.writer.Idle? && s.player.Resting? && s.head == s.tail
    ensures var s := Run(events); s.speaker == if s.port / 2 % 2 == 1 then 0xFF else 0
  {
    var s := Run(events);
    AnyInterleaving(events);
    QueueShrinks(s.slots, s.head, s.tail);
  }

  /** Some comparison found t to lie before the clock. */
  ghost predicate FoundElapsed(events: seq<Event>, t: nat) {
    exists time: nat :: t < time && Compare(time) in events
  }

  lemma FoundStays(events: seq<Event>, e: Event, t: nat)
    requires FoundElapsed(events, t)
    ensures FoundElapsed(events + [e], t)
  {
    var time: nat :| t < time && Compare(time) in events;
    assert Compare(time) in events + [e];
  }

  lemma JustFound(events: seq<Event>, e: Event, t: nat)
    ensures e.Compare? && t < e.time ==> FoundElapsed(events + [e], t)
  {
    if e.Compare? { assert e in events + [e]; }
  }

  /** Only toggles that have elapsed are taken out of the ring. */
  lemma {:induction false} OnlyElapsed(events: seq<Event>)
    requires !Run(events).overflowed
    ensures var s := Run(events);
            && (forall t | t in s.consumed :: FoundElapsed(events, t))
            && (s.player.Seen? ==> FoundElapsed(events, s.slots[s.tail]))
  {
    if events != [] {
      var before, e := events[..|events| - 1], events[|events| - 1];
      assert events == before + [e];
      var s, s' := Run(before), Run(events);
      OverflowStays(s, e);
      AnyInterleaving(before);
      OnlyElapsed(before);
      hide FoundElapsed, Steps;
      forall t | t in s'.consumed ensures FoundElapsed(events, t) {
        FoundStays(before, e, if t in s.consumed then t else s.slots[s.tail]);
      }
      if s'.player.Seen? {
        if s.player.Seen? {
          FoundStays(before, e, s.slots[s.tail]);
        } else {
          JustFound(before, e, s.slots[s.tail]);
        }
      }
    }
  }
}
