/** The speaker emulation: port writes put timestamps in a ring, and the audio callback takes them out. */
module Audio {
  import opened Basics

  const BUFFER_SIZE := 0x10000
  const CYCLES_PER_SAMPLE := 433  // 4770000 / 11000, in whole cycles
  const WRAP := 0x1_0000_0000

  predicate SpeakerBit(port: byte) {
    port / 2 % 2 == 1
  }

  /** The state of the speaker after n toggles from off. */
  function Speaker(n: nat): byte {
    if n % 2 == 1 then 0xFF else 0
  }

  /** How many of the timestamps from the front on lie before a time. */
  function Elapsed(queue: seq<nat>, time: nat): (n: nat)
    ensures n <= |queue|
  {
    if queue == [] || queue[0] >= time then 0 else 1 + Elapsed(queue[1..], time)
  }

  /** The playback clock one sample later; it wraps around. */
  function Ticked(time: nat): nat {
    (time + CYCLES_PER_SAMPLE) % WRAP
  }

  /** The samples played from a queue of toggles after others were played: at most len, none once the queue is empty. */
  function Play(queue: seq<nat>, time: nat, played: nat, len: nat): seq<byte>
    decreases len
  {
    if len == 0 || queue == [] then []
    else
      var time' := Ticked(time);
      var n := Elapsed(queue, time');
      [Speaker(played + n)] + Play(queue[n..], time', played + n, len - 1)
  }

  ghost predicate Nondecreasing(s: seq<nat>) {
    forall i, j | 0 <= i < j < |s| :: s[i] <= s[j]
  }

  ghost function CountBefore(s: seq<nat>, time: nat): nat {
    if s == [] then 0 else (if s[0] < time then 1 else 0) + CountBefore(s[1..], time)
  }

  lemma ElapsedNone(queue: seq<nat>, time: nat)
    requires queue == [] || queue[0] >= time
    ensures Elapsed(queue, time) == 0
  {
  }

  lemma ElapsedOne(queue: seq<nat>, done: seq<nat>, n: nat, time: nat)
    requires n < |queue| && queue[n..][0] < time
    ensures Elapsed(queue[n..], time) == 1 + Elapsed(queue[n + 1..], time)
    ensures queue[n..][1..] == queue[n + 1..]
    ensures done + queue[..n] + [queue[n..][0]] == done + queue[..n + 1]
  {
    assert queue[n..][1..] == queue[n + 1..];
  }

  lemma {:induction false} ElapsedCounts(queue: seq<nat>, time: nat)
    requires Nondecreasing(queue)
    ensures Elapsed(queue, time) == CountBefore(queue, time)
  {
    if queue != [] {
      ElapsedCounts(queue[1..], time);
      if queue[0] >= time { assert CountBefore(queue[1..], time) == Elapsed(queue[1..], time) == 0; }
    }
  }

  lemma {:induction false} CountSplit(queue: seq<nat>, n: nat, time: nat)
    requires n <= |queue| && forall i | 0 <= i < n :: queue[i] < time
    ensures CountBefore(queue, time) == n + CountBefore(queue[n..], time)
  {
    if n > 0 {
      CountSplit(queue[1..], n - 1, time);
      assert queue[1..][n - 1..] == queue[n..];
    } else {
      assert queue[0..] == queue;
    }
  }

  lemma {:induction false} ElapsedAreBefore(queue: seq<nat>, time: nat)
    ensures forall i | 0 <= i < Elapsed(queue, time) :: queue[i] < time
  {
    if queue != [] && queue[0] < time {
      ElapsedAreBefore(queue[1..], time);
      forall i | 0 <= i < Elapsed(queue, time) ensures queue[i] < time {
        assert i > 0 ==> queue[i] == queue[1..][i - 1];
      }
    }
  }

  lemma {:induction false} ElapsedStops(queue: seq<nat>, time: nat)
    ensures var n := Elapsed(queue, time); n < |queue| ==> queue[n] >= time
  {
    if queue != [] && queue[0] < time { ElapsedStops(queue[1..], time); }
  }

  /** The toggles that have elapsed at a time go from the front of the queue to those consumed. */
  ghost predicate Slurped(consumed: seq<nat>, queue: seq<nat>, consumed': seq<nat>, queue': seq<nat>, time: nat) {
    var n := Elapsed(queue, time);
    queue' == queue[n..] && consumed' == consumed + queue[..n]
  }

  /** The toggles of a queue moved from its front to the consumed ones, in order. */
  ghost predicate Moved(consumed: seq<nat>, queue: seq<nat>, consumed': seq<nat>, queue': seq<nat>) {
    consumed + queue == consumed' + queue' && |consumed| <= |consumed'|
  }

  ghost predicate Before(consumed: seq<nat>, start: nat, time: nat) {
    forall i | start <= i < |consumed| :: consumed[i] < time
  }

  lemma SlurpMoves(c: seq<nat>, q: seq<nat>, c': seq<nat>, q': seq<nat>, time: nat)
    requires Slurped(c, q, c', q', time)
    ensures Moved(c, q, c', q') && Before(c', |c|, time) && (q' != [] ==> q'[0] >= time)
  {
    ElapsedAreBefore(q, time);
    ElapsedStops(q, time);
    hide Elapsed;
    assert q == q[..Elapsed(q, time)] + q';
  }

  lemma MovedMore(c0: seq<nat>, q0: seq<nat>, c1: seq<nat>, q1: seq<nat>, c2: seq<nat>, q2: seq<nat>, t: nat, t': nat)
    requires Moved(c0, q0, c1, q1) && Moved(c1, q1, c2, q2)
    ensures Moved(c0, q0, c2, q2)
    ensures Before(c1, |c0|, t) && Before(c2, |c1|, t') && t <= t' ==> Before(c2, |c0|, t')
  {
    forall i | 0 <= i < |c1| ensures i < |c2| && c2[i] == c1[i] {
      assert (c1 + q1)[i] == (c2 + q2)[i];
    }
  }

  /** The playback clock k samples after it was started. */
  ghost predicate ClockIs(start: nat, k: nat, time: nat) {
    time == if k == 0 then start else (start + 433 * k) % 0x1_0000_0000
  }

  lemma Remainder(x: nat, q: nat, r: nat)
    requires x == 0x1_0000_0000 * q + r && r < 0x1_0000_0000
    ensures x % 0x1_0000_0000 == r
  {
  }

  lemma RemainderTicks(x: nat)
    ensures Ticked(x % 0x1_0000_0000) == (x + 433) % 0x1_0000_0000
  {
    var q, r := x / 0x1_0000_0000, x % 0x1_0000_0000;
    if r + 433 < 0x1_0000_0000 {
      Remainder(x + 433, q, r + 433);
    } else {
      Remainder(x + 433, q + 1, r + 433 - 0x1_0000_0000);
      Remainder(r + 433, 1, r + 433 - 0x1_0000_0000);
    }
  }

  lemma ClockTicks(start: nat, k: nat, time: nat)
    requires ClockIs(start, k, time)
    ensures ClockIs(start, k + 1, Ticked(time))
    ensures start + 433 * (k + 1) < 0x1_0000_0000 ==> time <= Ticked(time)
  {
    if k > 0 { RemainderTicks(start + 433 * k); }
  }

  /**
   * After k of len samples the clock is at time. The toggles consumed meanwhile come from the front of the
   * queue and, unless the clock wraps around, lie before it; the next toggle does not.
   */
  ghost predicate CaughtUp(start: nat, len: nat, k: nat, time: nat,
                           consumed: seq<nat>, queue: seq<nat>, consumed': seq<nat>, queue': seq<nat>)
  {
    && ClockIs(start, k, time) && Moved(consumed, queue, consumed', queue')
    && (k > 0 && queue' != [] ==> queue'[0] >= time)
    && (start + 433 * len < 0x1_0000_0000 ==> Before(consumed', |consumed|, time))
  }

  lemma CaughtUpStart(start: nat, len: nat, c: seq<nat>, q: seq<nat>)
    ensures CaughtUp(start, len, 0, start, c, q, c, q)
  {
  }

  lemma CaughtUpMore(start: nat, len: nat, k: nat, time: nat, c0: seq<nat>, q0: seq<nat>, c1: seq<nat>, q1: seq<nat>,
                     c2: seq<nat>, q2: seq<nat>)
    requires CaughtUp(start, len, k, time, c0, q0, c1, q1) && k < len && Slurped(c1, q1, c2, q2, Ticked(time))
    ensures CaughtUp(start, len, k + 1, Ticked(time), c0, q0, c2, q2)
  {
    hide Slurped, Moved, Before, ClockIs, Ticked;
    ClockTicks(start, k, time);
    SlurpMoves(c1, q1, c2, q2, Ticked(time));
    MovedMore(c0, q0, c1, q1, c2, q2, time, Ticked(time));
  }

  /** These samples are played first, and the rest from this queue at this time. */
  ghost predicate PlayedSoFar(all: seq<byte>, samples: seq<byte>, queue: seq<nat>, time: nat, played: nat, left: nat) {
    all == samples + Play(queue, time, played, left)
  }

  lemma PlayStart(queue: seq<nat>, time: nat, played: nat, len: nat)
    ensures PlayedSoFar(Play(queue, time, played, len), [], queue, time, played, len)
  {
  }

  lemma PlayEnd(all: seq<byte>, samples: seq<byte>, queue: seq<nat>, time: nat, played: nat, left: nat)
    requires PlayedSoFar(all, samples, queue, time, played, left) && (left == 0 || queue == [])
    ensures samples == all
  {
  }

  lemma PlayOne(all: seq<byte>, samples: seq<byte>, c: seq<nat>, queue: seq<nat>, c': seq<nat>, queue': seq<nat>,
                time: nat, left: nat)
    requires PlayedSoFar(all, samples, queue, time, |c|, left) && left > 0 && queue != []
    requires Slurped(c, queue, c', queue', Ticked(time))
    ensures PlayedSoFar(all, samples + [Speaker(|c'|)], queue', Ticked(time), |c'|, left - 1)
  {
    hide Elapsed, Speaker, Ticked;
    AppendTwice(samples, [Speaker(|c'|)], Play(queue', Ticked(time), |c'|, left - 1));
  }

  lemma NothingBefore(time: nat)
    ensures CountBefore([], time) == 0
  {
  }

  lemma FirstSample(queue: seq<nat>, time: nat)
    requires Nondecreasing(queue) && time + 433 < 0x1_0000_0000
    ensures Ticked(time) == time + 433 && CountBefore(queue, time + 433) == Elapsed(queue, time + 433)
    ensures Elapsed(queue, time + 433) < |queue| <==> queue[Elapsed(queue, time + 433)..] != []
  {
    ElapsedCounts(queue, time + 433);
  }

  lemma LaterSample(queue: seq<nat>, time: nat, len: nat, k: nat)
    requires Nondecreasing(queue) && 0 < k < len && time + 433 * (len + 1) < 0x1_0000_0000
    ensures var time' := Ticked(time); var n := Elapsed(queue, time');
            && time' == time + 433 && Nondecreasing(queue[n..])
            && CountBefore(queue, time + 433 * (k + 1)) == n + CountBefore(queue[n..], time' + 433 * k)
  {
    var time' := Ticked(time);
    ElapsedAreBefore(queue, time');
    hide Elapsed, CountBefore;
    CountSplit(queue, Elapsed(queue, time'), time + 433 * (k + 1));
  }

  lemma PlayParts(queue: seq<nat>, time: nat, played: nat, len: nat, k: nat)
    requires k < len
    ensures var time' := Ticked(time); var n := Elapsed(queue, time');
            var samples, rest := Play(queue, time, played, len), Play(queue[n..], time', played + n, len - 1);
            if queue == [] then samples == []
            else if k == 0 then samples != [] && samples[0] == if (played + n) % 2 == 1 then 0xFF else 0
            else (k < |samples| <==> k - 1 < |rest|) && (k < |samples| ==> samples[k] == rest[k - 1])
  {
    hide Elapsed, Ticked;
  }

  /**
   * The samples trace the recorded waveform: sample k is on iff an odd number of toggles happened before
   * its moment, counting those already played.
   */
  lemma {:induction false} SamplesTraceToggles(queue: seq<nat>, time: nat, played: nat, len: nat, k: nat)
    requires Nondecreasing(queue) && time + 433 * (len + 1) < 0x1_0000_0000
    requires k < len && k < |Play(queue, time, played, len)|
    ensures Play(queue, time, played, len)[k] ==
            if (played + CountBefore(queue, time + 433 * (k + 1))) % 2 == 1 then 0xFF else 0
    decreases len
  {
    hide *;
    PlayParts(queue, time, played, len, k);
    if k == 0 {
      FirstSample(queue, time);
    } else {
      LaterSample(queue, time, len, k);
      var time' := Ticked(time);
      var n := Elapsed(queue, time');
      SamplesTraceToggles(queue[n..], time', played + n, len - 1, k - 1);
    }
  }

  /** A first sample is played iff there is a toggle, and a later one iff some toggle was not over one sample before. */
  lemma {:induction false} PlaysWhileQueued(queue: seq<nat>, time: nat, played: nat, len: nat, k: nat)
    requires Nondecreasing(queue) && time + 433 * (len + 1) < 0x1_0000_0000 && k < len
    ensures k < |Play(queue, time, played, len)| <==>
              if k == 0 then queue != [] else CountBefore(queue, time + 433 * k) < |queue|
    decreases len
  {
    hide *;
    PlayParts(queue, time, played, len, k);
    NothingBefore(time + 433 * k);
    if queue != [] && k > 0 {
      var time' := Ticked(time);
      var n := Elapsed(queue, time');
      LaterSample(queue, time, len, k);
      if k == 1 { FirstSample(queue, time); } else { LaterSample(queue, time, len, k - 1); }
      PlaysWhileQueued(queue[n..], time', played + n, len - 1, k - 1);
    }
  }

  // ---------------------------------------------------------------- what the gate should sound like

  datatype PortWrite = PortWrite(value: byte, timestamp: nat)

  ghost predicate Ordered(writes: seq<PortWrite>) {
    forall i, j | 0 <= i < j < |writes| :: writes[i].timestamp <= writes[j].timestamp
  }

  /** The value of the port just before a time: the last one written before it. */
  ghost function GateAt(port: byte, writes: seq<PortWrite>, time: nat): byte {
    var n := |writes|;
    if n == 0 then port
    else if writes[n - 1].timestamp < time then writes[n - 1].value
    else GateAt(port, writes[..n - 1], time)
  }

  ghost function LastValue(port: byte, writes: seq<PortWrite>): byte {
    if writes == [] then port else writes[|writes| - 1].value
  }

  /** When bit 1 of the port changes. */
  ghost function TogglesOf(port: byte, writes: seq<PortWrite>): (ts: seq<nat>)
    ensures |ts| <= |writes|
  {
    var n := |writes|;
    if n == 0 then []
    else
      var before := TogglesOf(port, writes[..n - 1]);
      if writes[n - 1].value / 2 % 2 != LastValue(port, writes[..n - 1]) / 2 % 2 then before + [writes[n - 1].timestamp]
      else before
  }

  lemma {:induction false} CountAppend(s: seq<nat>, t: nat, time: nat)
    ensures CountBefore(s + [t], time) == CountBefore(s, time) + if t < time then 1 else 0
  {
    if s == [] {
      assert CountBefore([], time) == 0;
    } else {
      CountAppend(s[1..], t, time);
      assert (s + [t])[1..] == s[1..] + [t];
    }
  }

  lemma {:induction false} TogglesOrdered(port: byte, writes: seq<PortWrite>)
    requires Ordered(writes)
    ensures Nondecreasing(TogglesOf(port, writes))
    ensures forall t | t in TogglesOf(port, writes) :: writes != [] && t <= writes[|writes| - 1].timestamp
    decreases |writes|
  {
    var n := |writes|;
    if n > 0 {
      var before, last := writes[..n - 1], writes[n - 1];
      TogglesOrdered(port, before);
      var ts := TogglesOf(port, before);
      assert n > 1 ==> writes[n - 2].timestamp <= last.timestamp;
      forall i | 0 <= i < |ts| ensures ts[i] <= last.timestamp { assert ts[i] in ts; }
    }
  }

  /** The gate is on at a time iff an odd number of toggles lie before it, counted from the gate being off. */
  lemma {:induction false} GateFollowsToggles(port: byte, writes: seq<PortWrite>, time: nat)
    requires Ordered(writes)
    ensures GateAt(port, writes, time) / 2 % 2 == (port / 2 + CountBefore(TogglesOf(port, writes), time)) % 2
    decreases |writes|
  {
    var n := |writes|;
    if n == 0 {
      assert CountBefore([], time) == 0;
    } else {
      var last, before := writes[n - 1], writes[..n - 1];
      GateFollowsToggles(port, before, time);
      CountAppend(TogglesOf(port, before), last.timestamp, time);
      assert last.timestamp < time ==> GateAt(port, before, time) == LastValue(port, before);
    }
  }

  /** Samples are played from the first toggle on until all toggles are over, and each is the gate at its moment. */
  ghost predicate SoundsLike(samples: seq<byte>, port: byte, writes: seq<PortWrite>, len: nat) {
    var toggles := TogglesOf(port, writes);
    && (toggles == [] ==> samples == [])
    && (toggles != [] ==>
          && (forall k | 0 <= k < |samples| :: samples[k] ==
               if GateAt(port, writes, toggles[0] + 433 * (k + 1)) / 2 % 2 == 1 then 0xFF else 0)
          && (forall k: nat | k < len :: k < |samples| <==>
               k == 0 || CountBefore(toggles, toggles[0] + 433 * k) < |toggles|))
  }

  lemma PlayNothing(time: nat, played: nat, len: nat)
    ensures Play([], time, played, len) == []
  {
  }

  lemma PlaySoundsLike(port: byte, writes: seq<PortWrite>, time: nat, played: nat, len: nat)
    requires Ordered(writes) && played % 2 == port / 2 % 2
    requires forall w | w in writes :: w.timestamp + 433 * (len + 1) < 0x1_0000_0000
    requires var toggles := TogglesOf(port, writes); toggles != [] ==> time == toggles[0]
    requires |Play(TogglesOf(port, writes), time, played, len)| <= len
    ensures SoundsLike(Play(TogglesOf(port, writes), time, played, len), port, writes, len)
  {
    var toggles := TogglesOf(port, writes);
    var samples := Play(toggles, time, played, len);
    hide Play, GateAt, TogglesOf, CountBefore;
    TogglesOrdered(port, writes);
    if toggles == [] {
      PlayNothing(time, played, len);
    } else {
      assert toggles[0] in toggles && writes[|writes| - 1] in writes;
      forall k: nat | k < len
        ensures k < |samples| <==> k == 0 || CountBefore(toggles, time + 433 * k) < |toggles|
      {
        PlaysWhileQueued(toggles, time, played, len, k);
      }
      forall k | 0 <= k < |samples|
        ensures samples[k] == if GateAt(port, writes, time + 433 * (k + 1)) / 2 % 2 == 1 then 0xFF else 0
      {
        SamplesTraceToggles(toggles, time, played, len, k);
        GateFollowsToggles(port, writes, time + 433 * (k + 1));
      }
    }
  }

  // ---------------------------------------------------------------- the ring

  /** What lies between the tail and the head. */
  function QueueOf(slots: seq<nat>, head: nat, tail: nat): seq<nat>
    requires head < |slots| && tail < |slots|
  {
    if tail <= head then slots[tail..head] else slots[tail..] + slots[..head]
  }

  function NextIndex(i: nat): nat {
    if i + 1 == BUFFER_SIZE then 0 else i + 1
  }

  lemma QueueGrows(slots: seq<nat>, head: nat, tail: nat, timestamp: nat)
    requires |slots| == BUFFER_SIZE && head < |slots| && tail < |slots|
    ensures QueueOf(slots[head := timestamp], head, tail) == QueueOf(slots, head, tail)
    ensures NextIndex(head) == tail <==> |QueueOf(slots, head, tail)| == BUFFER_SIZE - 1
    ensures QueueOf(slots[head := timestamp], NextIndex(head), tail) ==
            if NextIndex(head) == tail then [] else QueueOf(slots, head, tail) + [timestamp]
  {
  }

  lemma QueueShrinks(slots: seq<nat>, head: nat, tail: nat)
    requires |slots| == BUFFER_SIZE && head < |slots| && tail < |slots|
    ensures head == tail <==> QueueOf(slots, head, tail) == []
    ensures head != tail ==> QueueOf(slots, head, tail) == [slots[tail]] + QueueOf(slots, head, NextIndex(tail))
  {
  }

  class AudioState {
    const timestamps: array<nat>
    var head: nat
    var tail: nat
    var port61: byte
    var enable: bool
    var currentTime: nat
    var state: byte
    /** All timestamps ever recorded and all ever played, and how often the ring overflowed. */
    ghost var recorded: seq<nat>
    ghost var consumed: seq<nat>
    ghost var overflows: nat

    constructor ()
      ensures Valid() && fresh(timestamps) && recorded == consumed == [] && overflows == 0
    {
      timestamps := new nat[BUFFER_SIZE];
      head, tail, port61, enable, currentTime, state := 0, 0, 0, false, 0, 0;
      recorded, consumed, overflows := [], [], 0;
    }

    ghost predicate InRange()
      reads `head, `tail
    {
      timestamps.Length == BUFFER_SIZE && head < BUFFER_SIZE && tail < BUFFER_SIZE
    }

    ghost function Queue(): seq<nat>
      requires InRange()
      reads `head, `tail, timestamps
    {
      QueueOf(timestamps[..], head, tail)
    }

    ghost predicate Full()
      requires InRange()
      reads `head, `tail, timestamps
    {
      |Queue()| == BUFFER_SIZE - 1
    }

    /**
     * What was recorded is what was played followed by what is queued, unless an overflow lost whole
     * buffers; the playback state is on iff an odd number of toggles was played; and the speaker bit of
     * the port is on iff an odd number was recorded.
     */
    ghost predicate Valid()
      reads `head, `tail, `port61, `state, `recorded, `consumed, `overflows, timestamps
    {
      && InRange()
      && |recorded| == |consumed| + BUFFER_SIZE * overflows + |Queue()|
      && |recorded| % 2 == (|consumed| + |Queue()|) % 2
      && (overflows == 0 ==> recorded == consumed + Queue())
      && state == Speaker(|consumed|)
      && (SpeakerBit(port61) <==> |recorded| % 2 == 1)
    }

    /** Once the ring is empty, playback agrees with the port, overflow or not: a whole buffer is even. */
    lemma SilentAgreement()
      requires Valid() && head == tail
      ensures state == if port61 / 2 % 2 == 1 then 0xFF else 0
    {
      QueueShrinks(timestamps[..], head, tail);
    }

    /** Stores a timestamp at the head. In a full ring the head then meets the tail. */
    method Push(timestamp: nat) returns (overflow: bool)
      requires InRange()
      modifies this`head, timestamps
      ensures InRange() && overflow == old(Full())
      ensures Queue() == if old(Full()) then [] else old(Queue()) + [timestamp]
    {
      QueueGrows(timestamps[..], head, tail, timestamp);
      var nextHead := NextIndex(head);
      overflow := nextHead == tail;
      timestamps[head] := timestamp;
      assert timestamps[..] == old(timestamps[..])[head := timestamp];
      head := nextHead;
    }

    method Pop() returns (timestamp: nat)
      requires InRange() && head != tail
      modifies this`tail
      ensures InRange() && old(Queue()) == [timestamp] + Queue()
    {
      QueueShrinks(timestamps[..], head, tail);
      timestamp := timestamps[tail];
      tail := NextIndex(tail);
    }

    /** A write to the speaker gate. It loses what is queued exactly if the toggle finds the ring full. */
    method OutSpeaker(value: byte, timestamp: nat)
      requires Valid()
      modifies this, timestamps
      ensures Valid() && port61 == value && consumed == old(consumed) && state == old(state)
      ensures var toggled, full := value / 2 % 2 != old(port61) / 2 % 2, |old(Queue())| == 0xFFFF;
              && recorded == (if toggled then old(recorded) + [timestamp] else old(recorded))
              && Queue() == (if !toggled then old(Queue()) else if full then [] else old(Queue()) + [timestamp])
              && overflows == (if toggled && full then old(overflows) + 1 else old(overflows))
              && enable == (toggled || old(enable))
              && currentTime == (if toggled && !old(enable) then timestamp else old(currentTime))
    {
      hide Queue;
      var toggled := SpeakerBit(value) != SpeakerBit(port61);
      if toggled {
        var overflow := Push(timestamp);
        recorded := recorded + [timestamp];
        if overflow { overflows := overflows + 1; }
        if !enable {
          currentTime, enable := timestamp, true;
        }
      }
      port61 := value;
    }

    /** Takes one toggle out of the ring. */
    method Consume()
      requires Valid() && head != tail
      modifies this`tail, this`state, this`consumed
      ensures InRange() && Valid()
      ensures old(Queue()) != [] && Queue() == old(Queue())[1..] && consumed == old(consumed) + [old(Queue())[0]]
    {
      hide Queue;
      var t := Pop();
      state := 0xFF - state;
      consumed := consumed + [t];
      assert old(Queue())[1..] == Queue();
    }

    lemma FrontIsTail()
      requires InRange() && head != tail
      ensures Queue() != [] && Queue()[0] == timestamps[tail]
    {
      QueueShrinks(timestamps[..], head, tail);
    }

    lemma QueueEmpty()
      requires InRange()
      ensures head == tail <==> Queue() == []
    {
      QueueShrinks(timestamps[..], head, tail);
    }

    /** Takes the toggles that have elapsed out of the ring. */
    method Slurp()
      requires Valid()
      modifies this`tail, this`state, this`consumed
      ensures Valid() && InRange() && state == Speaker(|consumed|)
      ensures Slurped(old(consumed), old(Queue()), consumed, Queue(), currentTime)
    {
      assert InRange();
      hide Queue, Valid, Elapsed;
      ghost var q, c, n := Queue(), consumed, 0;
      assert q[0..] == q && q[..0] == [] && c + [] == c;
      while head != tail && timestamps[tail] < currentTime
        invariant InRange() && Valid() && n <= |q| && Queue() == q[n..] && consumed == c + q[..n]
        invariant Elapsed(q, currentTime) == n + Elapsed(q[n..], currentTime)
        decreases |q| - n
      {
        FrontIsTail();
        ElapsedOne(q, c, n, currentTime);
        Consume();
        n := n + 1;
      }
      QueueEmpty();
      if head != tail { FrontIsTail(); }
      ElapsedNone(q[n..], currentTime);
    }

    /** The clock goes on by one sample, and the toggles that have elapsed are played. */
    method NextSample() returns (sample: byte)
      requires Valid()
      modifies this`tail, this`state, this`consumed, this`currentTime
      ensures Valid() && InRange() && sample == Speaker(|consumed|) && currentTime == Ticked(old(currentTime))
      ensures Slurped(old(consumed), old(Queue()), consumed, Queue(), currentTime)
    {
      assert InRange();
      hide *;
      currentTime := Ticked(currentTime);
      Slurp();
      sample := state;
    }

    /**
     * Fills len samples, or fewer if the ring runs empty; then playback stops. The toggles taken out are those
     * before the clock; they come from the front, and the next one is not before the clock.
     */
    method AudioCallback(len: nat) returns (samples: seq<byte>)
      requires Valid()
      modifies this`tail, this`state, this`consumed, this`enable, this`currentTime
      ensures Valid() && recorded == old(recorded)
      ensures samples == Play(old(Queue()), old(currentTime), |old(consumed)|, len)
      ensures |samples| <= len && (|samples| < len ==> !enable && Queue() == [])
      ensures |samples| == len ==> enable == old(enable)
      ensures CaughtUp(old(currentTime), len, |samples|, currentTime, old(consumed), old(Queue()), consumed, Queue())
    {
      assert InRange();
      ghost var start, c0, q0 := currentTime, consumed, Queue();
      ghost var all := Play(q0, start, |c0|, len);
      assert InRange();
      hide *;
      samples := [];
      PlayStart(q0, start, |c0|, len);
      CaughtUpStart(start, len, c0, q0);
      for i := 0 to len
        invariant Valid() && InRange() && enable == old(enable) && |samples| == i
        invariant PlayedSoFar(all, samples, Queue(), currentTime, |consumed|, len - i)
        invariant CaughtUp(start, len, i, currentTime, c0, q0, consumed, Queue())
      {
        QueueEmpty();
        ghost var time, c, q := currentTime, consumed, Queue();
        if head == tail {
          PlayEnd(all, samples, q, time, |c|, len - i);
          enable := false;
          return;
        }
        var sample := NextSample();
        PlayOne(all, samples, c, q, consumed, Queue(), time, len - i);
        CaughtUpMore(start, len, i, time, c0, q0, c, q, consumed, Queue());
        samples := samples + [sample];
      }
      PlayEnd(all, samples, Queue(), currentTime, |consumed|, 0);
    }

    lemma SilentParity()
      requires Valid() && head == tail
      ensures InRange() && Queue() == [] && |consumed| % 2 == port61 / 2 % 2
    {
    }

    /** Port writes after silence: the queue holds their toggles, and the clock stands at the first one. */
    method WriteAll(writes: seq<PortWrite>)
      requires Valid() && !enable && head == tail && |writes| < 0x1_0000
      modifies this, timestamps
      ensures Valid() && consumed == old(consumed) && Queue() == TogglesOf(old(port61), writes)
      ensures Queue() != [] ==> currentTime == Queue()[0]
    {
      SilentParity();
      hide Valid, Queue;
      ghost var port, c := port61, consumed;
      for i := 0 to |writes|
        invariant Valid() && InRange() && consumed == c && port61 == LastValue(port, writes[..i])
        invariant Queue() == TogglesOf(port, writes[..i]) && enable == (Queue() != [])
        invariant Queue() != [] ==> currentTime == Queue()[0]
      {
        assert writes[..i + 1][..i] == writes[..i];
        OutSpeaker(writes[i].value, writes[i].timestamp);
      }
      assert writes[..|writes|] == writes;
    }

    /** Port writes after silence, and the callback after them: what is played is what was done to the gate. */
    method PlayWrites(writes: seq<PortWrite>, len: nat) returns (samples: seq<byte>)
      requires Valid() && !enable && head == tail && |writes| < 0x1_0000
      requires Ordered(writes) && forall w | w in writes :: w.timestamp + 433 * (len + 1) < 0x1_0000_0000
      modifies this, timestamps
      ensures Valid() && (|samples| < len ==> !enable)
      ensures |samples| <= len && SoundsLike(samples, old(port61), writes, len)
    {
      SilentParity();
      hide *;
      ghost var port, c := port61, consumed;
      WriteAll(writes);
      ghost var time := currentTime;
      samples := AudioCallback(len);
      PlaySoundsLike(port, writes, time, |c|, len);
    }
  }
}
