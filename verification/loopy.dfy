/** Loopy: many clients on one OpenGL context, each with tracked capabilities of its own. */
module Loopy {
  /** A capability, by its GLenum. */
  datatype Cap = Cap(id: int)

  /** What the GLStates are told to track and restore, and what the real context starts out with. */
  datatype Setup = Setup(tracking: seq<bool>, restore: seq<bool>, initial: set<Cap>)

  ghost predicate ValidSetup(u: Setup) {
    |u.tracking| == |u.restore| >= 2
  }

  /**
   * The real capabilities, the current client and the tracked dictionary of each client; and, for
   * reference, what each client would have if it were alone on a context.
   */
  datatype State = State(context: set<Cap>, current: nat, caps: seq<map<Cap, bool>>, own: seq<set<Cap>>)

  ghost predicate ValidState(u: Setup, s: State) {
    |s.caps| == |s.own| == |u.tracking| == |u.restore| && s.current < |s.caps|
  }

  datatype Event = Set(cap: Cap, on: bool) | SwitchTo(client: nat)

  predicate On(caps: map<Cap, bool>, c: Cap) {
    c in caps && caps[c]
  }

  function Put(s: set<Cap>, c: Cap, on: bool): set<Cap> {
    if on then s + {c} else s - {c}
  }

  /** The disables and enables of a transition between two dictionaries. */
  function Switched(context: set<Cap>, prev: map<Cap, bool>, next: map<Cap, bool>): set<Cap> {
    (context - (set c | c in prev && On(prev, c) && !On(next, c))) + (set c | c in next && On(next, c) && !On(prev, c))
  }

  function Start(u: Setup): State {
    State(u.initial, 0, seq(|u.tracking|, _ => map[]), seq(|u.tracking|, _ => u.initial))
  }

  function Step(u: Setup, s: State, e: Event): State
    requires |s.caps| == |s.own| == |u.tracking| == |u.restore| && s.current < |s.caps|
  {
    match e
    case Set(c, on) =>
      s.(context := Put(s.context, c, on),
         caps := if u.tracking[s.current] then s.caps[s.current := s.caps[s.current][c := on]] else s.caps,
         own := s.own[s.current := Put(s.own[s.current], c, on)])
    case SwitchTo(next) =>
      if next >= |s.caps| || next == s.current then s
      else
        s.(context := if u.restore[next] then Switched(s.context, s.caps[s.current], s.caps[next]) else s.context,
           current := next)
  }

  function Steps(u: Setup, s: State, events: seq<Event>): (t: State)
    requires |s.caps| == |s.own| == |u.tracking| == |u.restore| && s.current < |s.caps|
    ensures |t.caps| == |t.own| == |u.tracking| && t.current < |t.caps|
    decreases |events|
  {
    if events == [] then s else Step(u, Steps(u, s, events[..|events| - 1]), events[|events| - 1])
  }

  function Run(u: Setup, events: seq<Event>): (s: State)
    requires |u.tracking| == |u.restore| >= 2
    ensures |s.caps| == |s.own| == |u.tracking| && s.current < |s.caps|
  {
    Steps(u, Start(u), events)
  }

  lemma StepsNone(u: Setup, s: State)
    requires ValidState(u, s)
    ensures Steps(u, s, []) == s
  {
  }

  lemma StepsOneMore(u: Setup, s: State, events: seq<Event>, e: Event)
    requires ValidState(u, s)
    ensures Steps(u, s, events + [e]) == Step(u, Steps(u, s, events), e)
  {
    assert (events + [e])[..|events|] == events;
  }

  lemma {:induction false} StepsAppend(u: Setup, s: State, a: seq<Event>, b: seq<Event>)
    requires ValidState(u, s)
    ensures Steps(u, s, a + b) == Steps(u, Steps(u, s, a), b)
    decreases |b|
  {
    hide Step;
    if b == [] {
      assert a + b == a;
    } else {
      StepsAppend(u, s, a, b[..|b| - 1]);
      assert (a + b)[..|a + b| - 1] == a + b[..|b| - 1];
    }
  }

  /** The current client finds the capability as it would if it were alone. */
  ghost predicate Isolated(s: State, c: Cap)
    requires s.current < |s.own|
  {
    c in s.context <==> c in s.own[s.current]
  }

  ghost predicate AlwaysIsolated(u: Setup, c: Cap)
    requires ValidSetup(u)
  {
    forall events :: Isolated(Run(u, events), c)
  }

  ghost predicate AllFlags(u: Setup) {
    forall i | 0 <= i < |u.tracking| && i < |u.restore| :: u.tracking[i] && u.restore[i]
  }

  /** Every dictionary says what its client would have alone, and the context agrees with the current one. */
  ghost predicate Tracked(s: State, c: Cap)
    requires |s.caps| == |s.own| && s.current < |s.own|
  {
    Isolated(s, c) && forall i | 0 <= i < |s.caps| :: On(s.caps[i], c) <==> c in s.own[i]
  }

  lemma StepKeepsTracked(u: Setup, s: State, e: Event, c: Cap)
    requires ValidState(u, s) && AllFlags(u) && Tracked(s, c)
    ensures Tracked(Step(u, s, e), c)
  {
    if e.SwitchTo? && e.client < |s.caps| {
      assert On(s.caps[e.client], c) <==> c in s.own[e.client];
      assert On(s.caps[s.current], c) <==> c in s.own[s.current];
    }
  }

  lemma {:induction false} RunTracked(u: Setup, events: seq<Event>, c: Cap)
    requires ValidSetup(u) && AllFlags(u) && c !in u.initial
    ensures Tracked(Run(u, events), c)
  {
    if events != [] {
      RunTracked(u, events[..|events| - 1], c);
      StepKeepsTracked(u, Run(u, events[..|events| - 1]), events[|events| - 1], c);
    }
  }

  /** A run of two or three events from the start, spelled out. */
  lemma RunOfThree(u: Setup, e1: Event, e2: Event, e3: Event)
    requires ValidSetup(u)
    ensures Run(u, [e1, e2]) == Step(u, Step(u, Start(u), e1), e2)
    ensures Run(u, [e1, e2, e3]) == Step(u, Step(u, Step(u, Start(u), e1), e2), e3)
  {
    assert [e1][..0] == [] && [e1, e2][..1] == [e1] && [e1, e2, e3][..2] == [e1, e2];
    assert Run(u, [e1]) == Step(u, Run(u, []), e1);
  }

  /** A client that is not tracked leaves a capability on behind the next client's back. */
  lemma UntrackedLeaks(u: Setup, i: nat, c: Cap)
    requires ValidSetup(u) && i < |u.tracking| && !u.tracking[i] && c !in u.initial
    ensures !AlwaysIsolated(u, c)
  {
    var events := [SwitchTo(i), Set(c, true), SwitchTo(if i == 0 then 1 else 0)];
    RunOfThree(u, events[0], events[1], events[2]);
    assert !Isolated(Run(u, events), c);
  }

  /** A client that is not restored inherits what the previous one left. */
  lemma UnrestoredLeaks(u: Setup, i: nat, c: Cap)
    requires ValidSetup(u) && i < |u.tracking| && !u.restore[i] && c !in u.initial
    ensures !AlwaysIsolated(u, c)
  {
    var events := [SwitchTo(if i == 0 then 1 else 0), Set(c, true), SwitchTo(i)];
    RunOfThree(u, events[0], events[1], events[2]);
    assert !Isolated(Run(u, events), c);
  }

  /** A capability the context starts with can be lost to a client that never touched it. */
  lemma InitiallyOnLeaks(u: Setup, c: Cap)
    requires ValidSetup(u) && c in u.initial
    ensures !AlwaysIsolated(u, c)
  {
    RunOfThree(u, Set(c, false), SwitchTo(1), SwitchTo(1));
    assert !Isolated(Run(u, [Set(c, false), SwitchTo(1)]), c);
  }

  /** Clients never disturb each other's use of c, in any run, iff all flags are set and c starts off. */
  lemma IsolatedIff(u: Setup, c: Cap)
    requires ValidSetup(u)
    ensures AlwaysIsolated(u, c) <==> AllFlags(u) && c !in u.initial
  {
    if AllFlags(u) && c !in u.initial {
      forall events ensures Isolated(Run(u, events), c) { RunTracked(u, events, c); }
    } else if c in u.initial {
      InitiallyOnLeaks(u, c);
    } else {
      var i :| 0 <= i < |u.tracking| && !(u.tracking[i] && u.restore[i]);
      if u.tracking[i] { UnrestoredLeaks(u, i, c); } else { UntrackedLeaks(u, i, c); }
    }
  }

  // ---------------------------------------------------------------- the objects

  class GLState {
    const tracking: bool
    const restore: bool
    var capabilities: map<Cap, bool>

    constructor (tracking: bool, restore: bool)
      ensures this.tracking == tracking && this.restore == restore && capabilities == map[]
    {
      this.tracking, this.restore, capabilities := tracking, restore, map[];
    }

  }

  /** What an overlay's render does: capability calls, and whether it ends in an exception. */
  datatype Script = Script(calls: seq<(Cap, bool)>, fails: bool)

  function Calls(calls: seq<(Cap, bool)>): (events: seq<Event>)
    ensures |events| == |calls|
  {
    seq(|calls|, i requires 0 <= i < |calls| => Set(calls[i].0, calls[i].1))
  }

  class Overlay {
    const client: nat
    var enabled: bool
    var initialized: bool

    constructor (client: nat)
      ensures this.client == client && enabled && !initialized
    {
      this.client, enabled, initialized := client, true, false;
    }

  }

  /** An overlay's turn in a buffer swap; one that is not enabled and initialized is passed over. */
  datatype Turn = Turn(client: nat, ready: bool, script: Script)

  function TurnsOf(overlays: seq<Overlay>, scripts: seq<Script>): (turns: seq<Turn>)
    requires |overlays| == |scripts|
    reads overlays
    ensures |turns| == |overlays| && forall i | 0 <= i < |turns| ::
              turns[i] == Turn(overlays[i].client, overlays[i].enabled && overlays[i].initialized, scripts[i])
  {
    if overlays == [] then []
    else
      var o := overlays[0];
      [Turn(o.client, o.enabled && o.initialized, scripts[0])] + TurnsOf(overlays[1..], scripts[1..])
  }

  /** Each overlay that is ready renders in its own client, up to the first that fails. */
  function Rendering(turns: seq<Turn>): seq<Event> {
    if turns == [] then []
    else if !turns[0].ready then Rendering(turns[1..])
    else
      var events := [SwitchTo(turns[0].client)] + Calls(turns[0].script.calls);
      if turns[0].script.fails then events else events + Rendering(turns[1..])
  }

  /** The events of one turn: none for an overlay that is not ready, otherwise the switch and the calls. */
  lemma RenderingOne(t: Turn)
    ensures var events, n := Rendering([t]), |t.script.calls|;
            if !t.ready then events == []
            else && |events| == n + 1 && events[0] == SwitchTo(t.client)
                 && forall k | 0 <= k < n :: events[k + 1] == Set(t.script.calls[k].0, t.script.calls[k].1)
  {
    assert [t][1..] == [] && Rendering([]) == [];
  }

  /** Turns come one after the other, but none after one that failed. */
  lemma {:induction false} RenderingSplits(a: seq<Turn>, b: seq<Turn>)
    ensures Rendering(a + b) ==
            if exists t :: t in a && t.ready && t.script.fails then Rendering(a) else Rendering(a) + Rendering(b)
  {
    if a == [] {
      assert a + b == b;
    } else {
      RenderingSplits(a[1..], b);
      assert (a + b)[1..] == a[1..] + b;
      assert forall t :: t in a <==> t == a[0] || t in a[1..];
    }
  }

  lemma NextTurn(done: seq<Event>, turns: seq<Turn>, i: nat)
    requires i < |turns|
    ensures var t := turns[i];
            var events := [SwitchTo(t.client)] + Calls(t.script.calls);
            done + Rendering(turns[i..]) ==
            if !t.ready then done + Rendering(turns[i + 1..])
            else if t.script.fails then done + events
            else done + events + Rendering(turns[i + 1..])
  {
    assert turns[i..][1..] == turns[i + 1..];
    hide Calls;
  }

  lemma RenderingNone(done: seq<Event>, turns: seq<Turn>)
    ensures done + Rendering(turns[|turns|..]) == done
  {
  }

  /** The switcher: the target is client 0, and every overlay has a client of its own. */
  class Switcher {
    const states: seq<GLState>
    var context: set<Cap>
    var current: nat
    ghost var own: seq<set<Cap>>

    constructor (states: seq<GLState>)
      requires |states| >= 2 && forall i, j | 0 <= i < j < |states| :: states[i] != states[j]
      requires forall g | g in states :: g.capabilities == map[]
      ensures this.states == states && Valid() && Contents() == Start(Flags({}))
    {
      this.states, context, current := states, {}, 0;
      own := seq(|states|, _ => {});
    }

    ghost predicate Valid()
      reads this
    {
      && |own| == |states| >= 2 && current < |states|
      && forall i, j | 0 <= i < j < |states| :: states[i] != states[j]
    }

    ghost function Flags(initial: set<Cap>): (u: Setup)
      ensures |u.tracking| == |u.restore| == |states|
    {
      Setup(seq(|states|, i requires 0 <= i < |states| => states[i].tracking),
            seq(|states|, i requires 0 <= i < |states| => states[i].restore), initial)
    }

    ghost function Contents(): (s: State)
      reads this, states
      ensures |s.caps| == |states| && s.current == current && s.own == own
    {
      State(context, current,
            seq(|states|, i requires 0 <= i < |states| reads states => states[i].capabilities), own)
    }

    /** glEnable and glDisable, made by the current client. */
    method SetCapability(cap: Cap, on: bool)
      requires Valid()
      modifies this, states
      ensures Valid() && Contents() == Step(Flags({}), old(Contents()), Set(cap, on))
      ensures forall c :: c in context <==> if c == cap then on else c in old(context)
    {
      context := Put(context, cap, on);
      own := own[current := Put(own[current], cap, on)];
      var g := states[current];
      if g.tracking {
        g.capabilities := g.capabilities[cap := on];
      }
      assert Contents().caps == Step(Flags({}), old(Contents()), Set(cap, on)).caps;
    }

    /** The first pass over the dictionaries: disables what is on in prev and not in next. */
    method DisableMissing(prev: map<Cap, bool>, next: map<Cap, bool>)
      modifies this`context
      ensures forall c :: c in context <==> c in old(context) && !(On(prev, c) && !On(next, c))
    {
      var keys := prev.Keys;
      while keys != {}
        invariant keys <= prev.Keys
        invariant forall c :: c in context <==> c in old(context) && !(c !in keys && On(prev, c) && !On(next, c))
        decreases |keys|
      {
        var c :| c in keys;
        keys := keys - {c};
        if prev[c] && !(c in next && next[c]) {
          context := context - {c};
        }
      }
    }

    /** The second pass: enables what is on in next and not in prev. */
    method EnableMissing(prev: map<Cap, bool>, next: map<Cap, bool>)
      modifies this`context
      ensures forall c :: c in context <==> c in old(context) || (On(next, c) && !On(prev, c))
    {
      var keys := next.Keys;
      while keys != {}
        invariant keys <= next.Keys
        invariant forall c :: c in context <==> c in old(context) || (c !in keys && On(next, c) && !On(prev, c))
        decreases |keys|
      {
        var c :| c in keys;
        keys := keys - {c};
        if next[c] && !(c in prev && prev[c]) {
          context := context + {c};
        }
      }
    }

    method SwitchCapabilities(prev: map<Cap, bool>, next: map<Cap, bool>)
      modifies this`context
      ensures context == Switched(old(context), prev, next)
    {
      DisableMissing(prev, next);
      EnableMissing(prev, next);
      assert forall c :: c in context <==> c in Switched(old(context), prev, next);
    }

    method Switch(next: nat)
      requires Valid() && next < |states|
      modifies this
      ensures Valid() && Contents() == Step(Flags({}), old(Contents()), SwitchTo(next))
    {
      if next == current { return; }
      if states[next].restore {
        SwitchCapabilities(states[current].capabilities, states[next].capabilities);
      }
      current := next;
    }

    ghost predicate AllTracked()
      requires Valid()
      reads this, states
    {
      forall c :: Tracked(Contents(), c)
    }

    /** The capability calls of one client's turn; they leave every other client's own set alone. */
    method Perform(calls: seq<(Cap, bool)>)
      requires Valid() && AllTracked() && AllFlags(Flags({}))
      modifies this, states
      ensures Valid() && AllTracked() && current == old(current)
      ensures Contents() == Steps(Flags({}), old(Contents()), Calls(calls))
      ensures forall i | 0 <= i < |own| && i != current :: own[i] == old(own)[i]
    {
      ghost var s, u, events := Contents(), Flags({}), Calls(calls);
      assert events[..|calls|] == events;
      for k := 0 to |calls|
        invariant Valid() && AllTracked() && current == old(current) && Contents() == Steps(u, s, events[..k])
        invariant forall i | 0 <= i < |own| && i != current :: own[i] == old(own)[i]
      {
        hide Tracked, AllFlags;
        ghost var before, e := Contents(), events[k];
        SetCapability(calls[k].0, calls[k].1);
        assert events[..k + 1][..k] == events[..k];
        forall c ensures Tracked(Contents(), c) { StepKeepsTracked(u, before, e, c); }
      }
    }

    method SwitchTracked(next: nat)
      requires Valid() && AllTracked() && AllFlags(Flags({})) && next < |states|
      modifies this
      ensures Valid() && AllTracked() && current == next && own == old(own)
      ensures Contents() == Step(Flags({}), old(Contents()), SwitchTo(next))
    {
      ghost var before := Contents();
      Switch(next);
      forall c ensures Tracked(Contents(), c) { StepKeepsTracked(Flags({}), before, SwitchTo(next), c); }
    }

    /** One overlay's turn, in its own client. */
    method Render(overlay: Overlay, script: Script)
      requires Valid() && AllTracked() && AllFlags(Flags({})) && 0 < overlay.client < |states|
      modifies this, states
      ensures Valid() && AllTracked() && own[0] == old(own)[0]
      ensures Contents() == Steps(Flags({}), old(Contents()), [SwitchTo(overlay.client)] + Calls(script.calls))
    {
      ghost var s, u, e := Contents(), Flags({}), SwitchTo(overlay.client);
      SwitchTracked(overlay.client);
      assert [e][..0] == [] && Steps(u, s, [e]) == Step(u, s, e);
      Perform(script.calls);
      StepsAppend(u, s, [e], Calls(script.calls));
    }

    lemma ValidParts()
      requires Valid()
      ensures |own| == |states| >= 2 && ValidState(Flags({}), Contents())
    {
    }

    lemma ContextIsOwn()
      requires Valid() && AllTracked()
      ensures context == own[current]
    {
      forall c ensures c in context <==> c in own[current] { assert Tracked(Contents(), c); }
    }

    /** Every enabled, initialized overlay renders in its own client, until one fails. */
    method RenderAll(overlays: seq<Overlay>, scripts: seq<Script>)
      requires Valid() && AllTracked() && AllFlags(Flags({}))
      requires |scripts| == |overlays| && forall o | o in overlays :: 0 < o.client < |states|
      modifies this, states
      ensures Valid() && AllTracked() && own[0] == old(own)[0]
      ensures Contents() == Steps(Flags({}), old(Contents()), Rendering(TurnsOf(overlays, scripts)))
    {
      hide *;
      ghost var s, u, turns, done := Contents(), Flags({}), TurnsOf(overlays, scripts), [];
      ValidParts();
      StepsNone(u, s);
      assert turns[0..] == turns && [] + Rendering(turns) == Rendering(turns);
      for i := 0 to |overlays|
        invariant Valid() && AllTracked() && |own| == |states| && own[0] == old(own)[0]
        invariant Contents() == Steps(u, s, done) && done + Rendering(turns[i..]) == Rendering(turns)
      {
        ghost var events := [SwitchTo(overlays[i].client)] + Calls(scripts[i].calls);
        NextTurn(done, turns, i);
        if overlays[i].enabled && overlays[i].initialized {
          Render(overlays[i], scripts[i]);
          ValidParts();
          StepsAppend(u, s, done, events);
          done := done + events;
          if scripts[i].fails { return; }
        }
      }
      RenderingNone(done, turns);
    }

    /** A buffer swap: the overlays render, and the target is current again, with the capabilities it gave itself. */
    method SwapBuffers(overlays: seq<Overlay>, scripts: seq<Script>)
      requires Valid() && AllTracked() && AllFlags(Flags({})) && current == 0
      requires |scripts| == |overlays| && forall o | o in overlays :: 0 < o.client < |states|
      modifies this, states
      ensures Valid() && AllTracked() && current == 0
      ensures Contents() == Steps(Flags({}), old(Contents()), Rendering(TurnsOf(overlays, scripts)) + [SwitchTo(0)])
      ensures context == own[0] == old(context)
    {
      ContextIsOwn();
      ghost var s, u, all := Contents(), Flags({}), Rendering(TurnsOf(overlays, scripts));
      StepsOneMore(u, s, all, SwitchTo(0));
      assert |states| >= 2;
      hide *;
      RenderAll(overlays, scripts);
      SwitchTracked(0);
      ContextIsOwn();
    }
  }
}
