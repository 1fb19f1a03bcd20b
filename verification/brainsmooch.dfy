/** The brainsmooch machine: a flat token interpreter, and the structured programs it really runs. */
module Brainsmooch {
  import opened Basics

  datatype Token = Right | Left | Inc | Dec | Out | In | Open | Close

  datatype State = State(memory: seq<byte>, pointer: int, input: seq<byte>, output: seq<byte>)

  /** The cell an index denotes: a negative one counts from the end, and one out of range is an exception. */
  function Cell(size: int, pointer: int): (cell: Option<nat>)
    ensures cell.Some? ==> 0 <= cell.value < size
  {
    if 0 <= pointer < size then Some(pointer)
    else if -size <= pointer < 0 then Some(pointer + size)
    else None
  }

  /** A command other than the two brackets; None is an exception. */
  function Exec(t: Token, st: State): Option<State>
    requires t != Open && t != Close
  {
    if t == Right then Some(st.(pointer := st.pointer + 1))
    else if t == Left then Some(st.(pointer := st.pointer - 1))
    else
      match Cell(|st.memory|, st.pointer)
      case None => None
      case Some(cell) =>
        if t == Inc then Some(st.(memory := st.memory[cell := (st.memory[cell] as int + 1) % 0x100]))
        else if t == Dec then Some(st.(memory := st.memory[cell := (st.memory[cell] as int - 1) % 0x100]))
        else if t == Out then Some(st.(output := st.output + [st.memory[cell]]))
        else if st.input == [] then None
        else Some(st.(memory := st.memory[cell := st.input[0]], input := st.input[1..]))
  }

  /** What a command leaves when it ends in an exception: a byte is read before it is stored. */
  function Fault(t: Token, st: State): State {
    if t == In && st.input != [] then st.(input := st.input[1..]) else st
  }

  /** The truth of the current cell; None is an exception. */
  function Test(st: State): Option<bool> {
    match Cell(|st.memory|, st.pointer)
    case None => None
    case Some(cell) => Some(st.memory[cell] != 0)
  }

  // ---------------------------------------------------------------- the flat machine

  function Nest(t: Token): int {
    if t == Open then 1 else if t == Close then -1 else 0
  }

  /** The forward scan: the position after the token that brings the nesting to zero. */
  function Forward(program: seq<Token>, pc: nat, nesting: int): (r: Option<nat>)
    ensures r.Some? ==> pc < r.value <= |program|
    decreases |program| - pc
  {
    if pc >= |program| then None
    else if nesting + Nest(program[pc]) == 0 then Some(pc + 1)
    else Forward(program, pc + 1, nesting + Nest(program[pc]))
  }

  /** The backward scan: the position of the token that brings the nesting to zero. */
  function Backward(program: seq<Token>, pc: int, nesting: int): (r: Option<nat>)
    requires pc < |program|
    ensures r.Some? ==> r.value <= pc
    decreases pc + 1
  {
    if pc < 0 then None
    else if nesting + Nest(program[pc]) == 0 then Some(pc)
    else Backward(program, pc - 1, nesting + Nest(program[pc]))
  }

  datatype Outcome =
    | Halted(st: State)
    | Paused(pc: nat, st: State)
    | Crashed(st: State)

  /** One turn of the interpreter's loop. */
  function Step(program: seq<Token>, pc: nat, st: State): (o: Outcome)
    requires pc < |program|
    ensures !o.Halted?
  {
    var t := program[pc];
    if t == Open then
      match Test(st)
      case None => Crashed(st)
      case Some(true) => Paused(pc + 1, st)
      case Some(false) =>
        match Forward(program, pc, 0)
        case None => Crashed(st)
        case Some(pc') => Paused(pc', st)
    else if t == Close then
      match Backward(program, pc, 0)
      case None => Crashed(st)
      case Some(pc') => Paused(pc', st)
    else
      match Exec(t, st)
      case None => Crashed(Fault(t, st))
      case Some(st') => Paused(pc + 1, st')
  }

  /** The machine after at most n turns. */
  function Run(program: seq<Token>, pc: nat, st: State, n: nat): Outcome
    decreases n
  {
    if pc >= |program| then Halted(st)
    else if n == 0 then Paused(pc, st)
    else
      match Step(program, pc, st)
      case Paused(pc', st') => Run(program, pc', st', n - 1)
      case o => o
  }

  // ---------------------------------------------------------------- structured programs

  datatype Prog = End | Cmd(t: Token, rest: Prog) | Loop(body: Prog, rest: Prog)

  predicate Simple(p: Prog) {
    match p
    case End => true
    case Cmd(t, rest) => t != Open && t != Close && Simple(rest)
    case Loop(body, rest) => Simple(body) && Simple(rest)
  }

  type Program = p: Prog | Simple(p) witness End

  function Flatten(p: Prog): seq<Token> {
    match p
    case End => []
    case Cmd(t, rest) => [t] + Flatten(rest)
    case Loop(body, rest) => [Open] + Flatten(body) + [Close] + Flatten(rest)
  }

  datatype Result =
    | Done(st: State, left: nat)
    | OutOfFuel(st: State)
    | Failed(st: State)

  /** While-loop semantics; a command, a loop test and a return to the test each use one unit of fuel. */
  function Eval(p: Program, st: State, fuel: nat): (r: Result)
    ensures r.Done? ==> r.left <= fuel
    decreases fuel, p
  {
    if p == End then Done(st, fuel)
    else if fuel == 0 then OutOfFuel(st)
    else
      match p
      case Cmd(t, rest) =>
        (match Exec(t, st)
         case None => Failed(Fault(t, st))
         case Some(st') => Eval(rest, st', fuel - 1))
      case Loop(body, rest) =>
        match Test(st)
        case None => Failed(st)
        case Some(false) => Eval(rest, st, fuel - 1)
        case Some(true) =>
          match Eval(body, st, fuel - 1)
          case Done(st', left) => if left == 0 then OutOfFuel(st') else Eval(p, st', left - 1)
          case r => r
  }

  /** Natural semantics, without any counting: p takes st to st'. */
  least predicate Reaches(p: Program, st: State, st': State) {
    match p
    case End => st' == st
    case Cmd(t, rest) => Exec(t, st).Some? && Reaches(rest, Exec(t, st).value, st')
    case Loop(body, rest) =>
      || (Test(st) == Some(false) && Reaches(rest, st, st'))
      || (Test(st) == Some(true) && exists mid :: Reaches(body, st, mid) && Reaches(p, mid, st'))
  }

  // ---------------------------------------------------------------- the scans find the partner

  lemma CmdParts(program: seq<Token>, pc: nat, t: Token, rest: Prog)
    requires Holds(program, pc, Flatten(Cmd(t, rest)))
    ensures pc < |program| && program[pc] == t && Holds(program, pc + 1, Flatten(rest))
    ensures |Flatten(Cmd(t, rest))| == 1 + |Flatten(rest)|
  {
    hide Holds;
    HoldsAppend(program, pc, [t], Flatten(rest));
    HoldsOne(program, pc, t);
  }

  lemma LoopParts(program: seq<Token>, pc: nat, body: Prog, rest: Prog)
    requires Holds(program, pc, Flatten(Loop(body, rest)))
    ensures var close := pc + 1 + |Flatten(body)|;
            && close < |program| && program[pc] == Open && program[close] == Close
            && Holds(program, pc + 1, Flatten(body)) && Holds(program, close + 1, Flatten(rest))
    ensures |Flatten(Loop(body, rest))| == 2 + |Flatten(body)| + |Flatten(rest)|
  {
    hide Holds;
    HoldsAppend(program, pc, [Open] + Flatten(body) + [Close], Flatten(rest));
    HoldsAppend(program, pc, [Open] + Flatten(body), [Close]);
    HoldsAppend(program, pc, [Open], Flatten(body));
    HoldsOne(program, pc, Open);
    HoldsOne(program, pc + 1 + |Flatten(body)|, Close);
  }

  lemma {:induction false} ForwardOver(program: seq<Token>, pc: nat, p: Program, nesting: nat)
    requires Holds(program, pc, Flatten(p)) && nesting > 0
    ensures Forward(program, pc, nesting) == Forward(program, pc + |Flatten(p)|, nesting)
    decreases p
  {
    hide Holds;
    match p
    case End =>
    case Cmd(t, rest) =>
      CmdParts(program, pc, t, rest);
      ForwardOver(program, pc + 1, rest, nesting);
    case Loop(body, rest) =>
      LoopParts(program, pc, body, rest);
      ForwardOver(program, pc + 1, body, nesting + 1);
      ForwardOver(program, pc + 2 + |Flatten(body)|, rest, nesting);
  }

  lemma BackwardStep(program: seq<Token>, pc: nat, nesting: int)
    requires pc < |program| && nesting + Nest(program[pc]) != 0
    ensures Backward(program, pc, nesting) == Backward(program, pc - 1, nesting + Nest(program[pc]))
  {
  }

  lemma {:induction false} BackwardOver(program: seq<Token>, pc: nat, p: Program, nesting: int)
    requires Holds(program, pc, Flatten(p)) && nesting < 0
    ensures pc + |Flatten(p)| <= |program| &&
            Backward(program, pc + |Flatten(p)| - 1, nesting) == Backward(program, pc - 1, nesting)
    decreases p
  {
    hide Backward;
    match p
    case End =>
    case Cmd(t, rest) =>
      CmdParts(program, pc, t, rest);
      hide Holds, Flatten;
      BackwardOver(program, pc + 1, rest, nesting);
      BackwardStep(program, pc, nesting);
    case Loop(body, rest) =>
      LoopParts(program, pc, body, rest);
      var close := pc + 1 + |Flatten(body)|;
      hide Holds, Flatten;
      BackwardOver(program, close + 1, rest, nesting);
      BackwardStep(program, close, nesting);
      BackwardOver(program, pc + 1, body, nesting - 1);
      BackwardStep(program, pc, nesting - 1);
  }

  /** Both scans stop at the true partner of the bracket they start from. */
  lemma ScansFindPartner(program: seq<Token>, pc: nat, body: Program, rest: Program)
    requires Holds(program, pc, Flatten(Loop(body, rest)))
    ensures var close := pc + 1 + |Flatten(body)|;
            && close < |program| && program[pc] == Open && program[close] == Close
            && Forward(program, pc, 0) == Some(close + 1)
            && Backward(program, close, 0) == Some(pc)
  {
    LoopParts(program, pc, body, rest);
    hide Holds;
    ForwardOver(program, pc + 1, body, 1);
    BackwardOver(program, pc + 1, body, -1);
  }

  // ---------------------------------------------------------------- the machine refines the tree

  lemma RunStep(program: seq<Token>, pc: nat, st: State, n: nat)
    requires pc < |program|
    ensures n == 0 ==> Run(program, pc, st, n) == Paused(pc, st)
    ensures n > 0 && Step(program, pc, st).Crashed? ==> Run(program, pc, st, n) == Step(program, pc, st)
    ensures n > 0 && Step(program, pc, st).Paused? ==>
              var o := Step(program, pc, st);
              Run(program, pc, st, n) == Run(program, o.pc, o.st, n - 1)
  {
    hide Step;
  }

  /** What an observer sees of an outcome, in the terms of the structured semantics. */
  function Show(o: Outcome): Result {
    match o
    case Halted(st) => Done(st, 0)
    case Paused(_, st) => OutOfFuel(st)
    case Crashed(st) => Failed(st)
  }

  /** What is seen when the machine goes on from pc after a structured program has given r. */
  function Then(program: seq<Token>, pc: nat, r: Result): Result {
    if r.Done? then Show(Run(program, pc, r.st, r.left)) else r
  }

  ghost predicate Simulates(program: seq<Token>, pc: nat, p: Program, st: State, n: nat) {
    Show(Run(program, pc, st, n)) == Then(program, pc + |Flatten(p)|, Eval(p, st, n))
  }

  /** A command on both sides. */
  lemma CmdStep(program: seq<Token>, pc: nat, t: Token, rest: Program, st: State, n: nat)
    requires pc < |program| && program[pc] == t && t != Open && t != Close
    ensures Step(program, pc, st) ==
            if Exec(t, st).None? then Crashed(Fault(t, st)) else Paused(pc + 1, Exec(t, st).value)
    ensures Eval(Cmd(t, rest), st, n) ==
            if n == 0 then OutOfFuel(st)
            else if Exec(t, st).None? then Failed(Fault(t, st))
            else Eval(rest, Exec(t, st).value, n - 1)
  {
    hide Exec, Fault, Forward, Backward, Test;
  }

  lemma SimulatesCmd(program: seq<Token>, pc: nat, t: Token, rest: Program, st: State, n: nat)
    requires pc < |program| && program[pc] == t && t != Open && t != Close
    requires |Flatten(Cmd(t, rest))| == 1 + |Flatten(rest)|
    requires n > 0 && Exec(t, st).Some? ==> Simulates(program, pc + 1, rest, Exec(t, st).value, n - 1)
    ensures Simulates(program, pc, Cmd(t, rest), st, n)
  {
    hide Run, Eval, Step, Exec, Fault, Flatten;
    RunStep(program, pc, st, n);
    CmdStep(program, pc, t, rest, st, n);
  }

  lemma {:induction false} Simulate(program: seq<Token>, pc: nat, p: Program, st: State, n: nat)
    requires Holds(program, pc, Flatten(p))
    ensures Simulates(program, pc, p, st, n)
    decreases n, p
  {
    match p
    case End => assert |Flatten(p)| == 0;
    case Cmd(t, rest) =>
      CmdParts(program, pc, t, rest);
      hide *;
      if n > 0 && Exec(t, st).Some? {
        Simulate(program, pc + 1, rest, Exec(t, st).value, n - 1);
      }
      SimulatesCmd(program, pc, t, rest, st, n);
    case Loop(body, rest) =>
      SimulateLoop(program, pc, body, rest, st, n);
  }

  lemma EvalLoop(body: Program, rest: Program, st: State, n: nat)
    ensures var p := Loop(body, rest);
            && (n == 0 ==> Eval(p, st, n) == OutOfFuel(st))
            && (n > 0 && Test(st) == None ==> Eval(p, st, n) == Failed(st))
            && (n > 0 && Test(st) == Some(false) ==> Eval(p, st, n) == Eval(rest, st, n - 1))
            && (n > 0 && Test(st) == Some(true) ==>
                  var r := Eval(body, st, n - 1);
                  Eval(p, st, n) ==
                  if !r.Done? then r else if r.left == 0 then OutOfFuel(r.st) else Eval(p, r.st, r.left - 1))
  {
    hide Test;
  }

  /** The turns at the two brackets of a loop. */
  lemma LoopSteps(program: seq<Token>, pc: nat, body: Program, rest: Program, st: State)
    requires Holds(program, pc, Flatten(Loop(body, rest)))
    ensures var close := pc + 1 + |Flatten(body)|;
            && close < |program|
            && (Test(st) == None ==> Step(program, pc, st) == Crashed(st))
            && (Test(st) == Some(true) ==> Step(program, pc, st) == Paused(pc + 1, st))
            && (Test(st) == Some(false) ==> Step(program, pc, st) == Paused(close + 1, st))
            && Step(program, close, st) == Paused(pc, st)
  {
    ScansFindPartner(program, pc, body, rest);
    hide Holds, Flatten, Forward, Backward, Test;
  }

  lemma {:induction false} SimulateLoop(program: seq<Token>, pc: nat, body: Program, rest: Program, st: State, n: nat)
    requires Holds(program, pc, Flatten(Loop(body, rest)))
    ensures Simulates(program, pc, Loop(body, rest), st, n)
    decreases n, Loop(body, rest), 0
  {
    hide Run, Eval, Test, Step, Holds, Flatten;
    var close := pc + 1 + |Flatten(body)|;
    LoopParts(program, pc, body, rest);
    LoopSteps(program, pc, body, rest, st);
    RunStep(program, pc, st, n);
    EvalLoop(body, rest, st, n);
    if n > 0 && Test(st).Some? {
      if !Test(st).value {
        Simulate(program, close + 1, rest, st, n - 1);
      } else {
        Simulate(program, pc + 1, body, st, n - 1);
        var r := Eval(body, st, n - 1);
        if r.Done? {
          LoopSteps(program, pc, body, rest, r.st);
          RunStep(program, close, r.st, r.left);
          if r.left > 0 {
            SimulateLoop(program, pc, body, rest, r.st, r.left - 1);
          }
        }
      }
    }
  }

  // ---------------------------------------------------------------- balanced programs

  /** Brackets match, given depth opens that are still to be closed. */
  predicate Balanced(ts: seq<Token>, depth: nat) {
    if ts == [] then depth == 0
    else if ts[0] == Close then depth > 0 && Balanced(ts[1..], depth - 1)
    else Balanced(ts[1..], depth + Nest(ts[0]))
  }

  lemma Regroup(a: seq<Token>, b: seq<Token>, c: seq<Token>, d: seq<Token>, e: seq<Token>)
    ensures a + b + c + d + e == a + (b + (c + (d + e)))
  {
  }

  lemma LoopText(ts: seq<Token>, body: Program, after: seq<Token>, rest: Program, left: seq<Token>)
    requires ts != [] && ts[0] == Open && Flatten(body) + after == ts[1..]
    requires after != [] && after[0] == Close && Flatten(rest) + left == after[1..]
    ensures Flatten(Loop(body, rest)) + left == ts
  {
    var b, r, all := Flatten(body), Flatten(rest), Flatten(Loop(body, rest));
    assert all == [Open] + b + [Close] + r;
    hide Flatten;
    assert after == [Close] + after[1..] && ts == [Open] + ts[1..];
    Regroup([Open], b, [Close], r, left);
  }

  lemma CmdText(ts: seq<Token>, rest: Program, left: seq<Token>)
    requires ts != [] && ts[0] != Open && ts[0] != Close && Flatten(rest) + left == ts[1..]
    ensures Flatten(Cmd(ts[0], rest)) + left == ts
  {
  }

  /** The structured program up to the first bracket that closes an outer loop, and what is left. */
  function Parse(ts: seq<Token>, depth: nat): (r: (Program, seq<Token>))
    requires Balanced(ts, depth)
    ensures Flatten(r.0) + r.1 == ts && Balanced(r.1, depth)
    ensures if depth == 0 then r.1 == [] else r.1 != [] && r.1[0] == Close
    decreases |ts|
  {
    if ts == [] || ts[0] == Close then (End, ts)
    else if ts[0] == Open then
      var (body, after) := Parse(ts[1..], depth + 1);
      var (rest, left) := Parse(after[1..], depth);
      LoopText(ts, body, after, rest, left);
      (Loop(body, rest), left)
    else
      var (rest, left) := Parse(ts[1..], depth);
      CmdText(ts, rest, left);
      (Cmd(ts[0], rest), left)
  }

  function ParseProgram(ts: seq<Token>): (p: Program)
    requires Balanced(ts, 0)
    ensures Flatten(p) == ts
  {
    Parse(ts, 0).0
  }

  /**
   * For every balanced program, start state and number of turns, the flat machine and the structured
   * program show the same memory, pointer, input and output, and agree on halting, failing and going on.
   */
  lemma MachineRefinesStructure(ts: seq<Token>, st: State, n: nat)
    requires Balanced(ts, 0)
    ensures var r := Eval(ParseProgram(ts), st, n);
            Show(Run(ts, 0, st, n)) == if r.Done? then Done(r.st, 0) else r
  {
    var p := ParseProgram(ts);
    assert ts[0..0 + |Flatten(p)|] == ts;
    Simulate(ts, 0, p, st, n);
  }

  // ---------------------------------------------------------------- the uncounted semantics

  /** Running p from st to st' takes exactly k units of fuel. */
  ghost predicate Costs(p: Program, st: State, st': State, k: nat) {
    forall extra: nat :: Eval(p, st, k + extra) == Done(st', extra)
  }

  lemma LoopCosts(p: Program, st: State, mid: State, st': State, body: nat, again: nat)
    requires p.Loop? && Test(st) == Some(true)
    requires Costs(p.body, st, mid, body) && Costs(p, mid, st', again)
    ensures Costs(p, st, st', 1 + body + 1 + again)
  {
    forall extra: nat ensures Eval(p, st, 1 + body + 1 + again + extra) == Done(st', extra) {
      assert Eval(p.body, st, body + (1 + again + extra)) == Done(mid, 1 + again + extra);
      assert Eval(p, mid, again + extra) == Done(st', extra);
    }
  }

  lemma CmdCosts(p: Program, st: State, next: State, st': State, rest: nat)
    requires (p.Cmd? && Exec(p.t, st) == Some(next)) || (p.Loop? && Test(st) == Some(false) && next == st)
    requires Costs(p.rest, next, st', rest)
    ensures Costs(p, st, st', 1 + rest)
  {
    forall extra: nat ensures Eval(p, st, 1 + rest + extra) == Done(st', extra) {
      assert Eval(p.rest, next, rest + extra) == Done(st', extra);
    }
  }

  least lemma ReachesCosts(p: Program, st: State, st': State)
    requires Reaches(p, st, st')
    ensures exists k: nat :: Costs(p, st, st', k)
  {
    match p
    case End =>
      assert Costs(p, st, st', 0);
    case Cmd(t, rest) =>
      ReachesCosts(rest, Exec(t, st).value, st');
      var k: nat :| Costs(rest, Exec(t, st).value, st', k);
      CmdCosts(p, st, Exec(t, st).value, st', k);
    case Loop(body, rest) =>
      if Test(st) == Some(false) {
        ReachesCosts(rest, st, st');
        var k: nat :| Costs(rest, st, st', k);
        CmdCosts(p, st, st, st', k);
      } else {
        var mid :| Reaches#[_k - 1](body, st, mid) && Reaches#[_k - 1](p, mid, st');
        ReachesCosts(body, st, mid);
        ReachesCosts(p, mid, st');
        var k1: nat :| Costs(body, st, mid, k1);
        var k2: nat :| Costs(p, mid, st', k2);
        LoopCosts(p, st, mid, st', k1, k2);
      }
  }

  lemma {:induction false} DoneReaches(p: Program, st: State, n: nat)
    requires Eval(p, st, n).Done?
    ensures Reaches(p, st, Eval(p, st, n).st)
    decreases n, p
  {
    match p
    case End =>
    case Cmd(t, rest) =>
      DoneReaches(rest, Exec(t, st).value, n - 1);
    case Loop(body, rest) =>
      if Test(st) == Some(false) {
        DoneReaches(rest, st, n - 1);
      } else {
        DoneReaches(body, st, n - 1);
        var r := Eval(body, st, n - 1);
        DoneReaches(p, r.st, r.left - 1);
      }
  }

  ghost predicate HaltsAfter(ts: seq<Token>, st: State, n: nat, st': State) {
    Run(ts, 0, st, n) == Halted(st')
  }

  /** The machine halts in a state exactly when the while-loop semantics ends there; otherwise it never halts in it. */
  lemma HaltsIffReaches(ts: seq<Token>, st: State, st': State)
    requires Balanced(ts, 0)
    ensures (exists n: nat :: HaltsAfter(ts, st, n, st')) <==> Reaches(ParseProgram(ts), st, st')
  {
    hide Run, Eval, Parse, Balanced, Reaches;
    var p := ParseProgram(ts);
    if n: nat :| HaltsAfter(ts, st, n, st') {
      MachineRefinesStructure(ts, st, n);
      DoneReaches(p, st, n);
    }
    if Reaches(p, st, st') {
      ReachesCosts(p, st, st');
      var k: nat :| Costs(p, st, st', k);
      assert Eval(p, st, k + 0) == Done(st', 0);
      MachineRefinesStructure(ts, st, k);
      assert HaltsAfter(ts, st, k, st');
    }
  }

  // ---------------------------------------------------------------- what each token does

  /** Opens minus closes in a stretch of a program. */
  ghost function Level(program: seq<Token>, start: nat, end: nat): int
    requires start <= end <= |program|
    decreases end
  {
    if start == end then 0
    else
      var t := program[end - 1];
      Level(program, start, end - 1) + if t == Open then 1 else if t == Close then -1 else 0
  }

  lemma LevelFront(ts: seq<Token>, k: nat)
    requires 0 < k <= |ts|
    ensures Level(ts, 0, k) == Nest(ts[0]) + Level(ts[1..], 0, k - 1)
    decreases k
  {
    if k > 1 {
      LevelFront(ts, k - 1);
      assert ts[1..][k - 2] == ts[k - 1];
    }
  }

  /** With this many brackets open before it, no bracket closes before one opens, and all are closed at the end. */
  ghost predicate Closes(ts: seq<Token>, depth: int) {
    depth + Level(ts, 0, |ts|) == 0 && forall k: nat | k <= |ts| :: depth + Level(ts, 0, k) >= 0
  }

  lemma ClosesNext(ts: seq<Token>, depth: int)
    requires ts != []
    ensures Closes(ts, depth) <==> depth >= 0 && Closes(ts[1..], depth + Nest(ts[0]))
  {
    var rest := ts[1..];
    assert Level(ts, 0, 0) == 0;
    forall k: nat | k < |ts| ensures Level(ts, 0, k + 1) == Nest(ts[0]) + Level(rest, 0, k) {
      LevelFront(ts, k + 1);
    }
    hide Level, Nest;
    if Closes(ts, depth) {
      forall k: nat | k <= |rest| ensures depth + Nest(ts[0]) + Level(rest, 0, k) >= 0 {
        assert depth + Level(ts, 0, k + 1) >= 0;
      }
    }
    if depth >= 0 && Closes(rest, depth + Nest(ts[0])) {
      forall k: nat | k <= |ts| ensures depth + Level(ts, 0, k) >= 0 {
        if k > 0 { assert depth + Nest(ts[0]) + Level(rest, 0, k - 1) >= 0; }
      }
    }
  }

  /** Balanced programs are those in which no bracket closes before one opens, and as many open as close. */
  lemma {:induction false} BalancedIff(ts: seq<Token>, depth: nat)
    ensures Balanced(ts, depth) <==> Closes(ts, depth)
    decreases ts
  {
    if ts != [] {
      ClosesNext(ts, depth);
      if depth + Nest(ts[0]) >= 0 {
        BalancedIff(ts[1..], depth + Nest(ts[0]));
      } else {
        assert Level(ts[1..], 0, 0) == 0;
      }
    }
  }

  /** The brackets at open and close belong together. */
  ghost predicate Partners(program: seq<Token>, open: nat, close: nat) {
    && open < close < |program| && Level(program, open, close + 1) == 0
    && forall k | open < k <= close :: Level(program, open, k) > 0
  }

  lemma {:induction false} LevelSplit(program: seq<Token>, a: nat, b: nat, c: nat)
    requires a <= b <= c <= |program|
    ensures Level(program, a, c) == Level(program, a, b) + Level(program, b, c)
  {
    if b < c { LevelSplit(program, a, b, c - 1); }
  }

  lemma PartnerLevel(program: seq<Token>, open: nat, close: nat, k: nat)
    requires Partners(program, open, close) && open < k <= close + 1
    ensures close < |program| && (Level(program, open, k) > 0 <==> k <= close)
  {
  }

  lemma OnePartner(program: seq<Token>, open: nat, c: nat, d: nat)
    requires Partners(program, open, c) && Partners(program, open, d)
    ensures c == d
  {
    var k := if c < d then c + 1 else d + 1;
    assert open < k;
    hide Partners;
    PartnerLevel(program, open, c, k);
    PartnerLevel(program, open, d, k);
  }

  lemma {:induction false} ForwardFinds(program: seq<Token>, open: nat, pc: nat)
    requires open < pc <= |program| && forall k | open < k <= pc :: Level(program, open, k) > 0
    ensures var r := Forward(program, pc, Level(program, open, pc));
            && (r.Some? ==> Partners(program, open, r.value - 1))
            && (r.None? ==> forall k | open < k <= |program| :: Level(program, open, k) > 0)
    decreases |program| - pc
  {
    if pc < |program| {
      assert Level(program, open, pc + 1) == Level(program, open, pc) + Nest(program[pc]);
      if Level(program, open, pc + 1) != 0 { ForwardFinds(program, open, pc + 1); }
    }
  }

  /** From an opening bracket the forward scan jumps right after its partner, and fails exactly if it has none. */
  lemma ForwardIsPartner(program: seq<Token>, open: nat, close: nat)
    requires open < |program| && program[open] == Open
    ensures Forward(program, open, 0) == Some(close + 1) <==> Partners(program, open, close)
    ensures Forward(program, open, 0).None? <==> forall c: nat :: !Partners(program, open, c)
  {
    assert Level(program, open, open + 1) == Level(program, open, open) + 1;
    ForwardFinds(program, open, open + 1);
    var r := Forward(program, open, 0);
    assert r == Forward(program, open + 1, 1);
    hide Partners;
    forall c: nat | Partners(program, open, c) ensures r == Some(c + 1) {
      PartnerLevel(program, open, c, c + 1);
      if r.Some? { OnePartner(program, open, c, r.value - 1); }
    }
  }

  /** Seen from end, every stretch that starts after from closes more than it opens. */
  ghost predicate Closing(program: seq<Token>, from: int, end: nat)
    requires end <= |program|
  {
    forall k: nat | from < k < end :: Level(program, k, end) < 0
  }

  lemma {:induction false} BackwardFinds(program: seq<Token>, pc: int, end: nat)
    requires -1 <= pc < end - 1 < |program| && Closing(program, pc, end)
    ensures var r := Backward(program, pc, Level(program, pc + 1, end));
            && (r.Some? ==> r.value + 1 < end && Level(program, r.value, end) == 0 && Closing(program, r.value, end))
            && (r.None? ==> Closing(program, -1, end))
    decreases pc + 1
  {
    if pc >= 0 {
      LevelSplit(program, pc, pc + 1, end);
      assert Level(program, pc, pc + 1) == Level(program, pc, pc) + Nest(program[pc]);
      if Level(program, pc, end) != 0 { BackwardFinds(program, pc - 1, end); }
    }
  }

  lemma PartnersBackward(program: seq<Token>, open: nat, close: nat)
    requires open < close < |program|
    ensures Partners(program, open, close) <==>
              Level(program, open, close + 1) == 0 && Closing(program, open, close + 1)
  {
    var end := close + 1;
    forall k: nat | open < k < end
      ensures Level(program, open, end) == Level(program, open, k) + Level(program, k, end)
    {
      LevelSplit(program, open, k, end);
    }
    if Level(program, open, end) == 0 && Closing(program, open, end) {
      forall k: nat | open < k <= close ensures Level(program, open, k) > 0 { assert Level(program, k, end) < 0; }
    }
  }

  lemma OpenerLevel(program: seq<Token>, open: nat, close: nat, k: nat)
    requires Partners(program, open, close) && open <= k <= close
    ensures close < |program| && (Level(program, k, close + 1) < 0 <==> open < k)
  {
    PartnersBackward(program, open, close);
  }

  lemma OneOpener(program: seq<Token>, o: nat, d: nat, close: nat)
    requires Partners(program, o, close) && Partners(program, d, close)
    ensures o == d
  {
    var k := if o < d then d else o;
    assert k <= close;
    hide Partners;
    OpenerLevel(program, o, close, k);
    OpenerLevel(program, d, close, k);
  }

  /** From a closing bracket the backward scan jumps to its partner, and fails exactly if it has none. */
  lemma BackwardIsPartner(program: seq<Token>, open: nat, close: nat)
    requires close < |program| && program[close] == Close
    ensures Backward(program, close, 0) == Some(open) <==> Partners(program, open, close)
    ensures Backward(program, close, 0).None? <==> forall o: nat :: !Partners(program, o, close)
  {
    var end := close + 1;
    assert Level(program, close, end) == Level(program, close, close) - 1;
    BackwardFinds(program, close - 1, end);
    var r := Backward(program, close, 0);
    assert r == Backward(program, close - 1, -1);
    if r.Some? { PartnersBackward(program, r.value, close); }
    hide Partners;
    forall o: nat | Partners(program, o, close) ensures r == Some(o) {
      OpenerLevel(program, o, close, o);
      if r.Some? { OneOpener(program, o, r.value, close); }
    }
  }

  /** What one turn at pc does: whether it goes on, where, and with which state. */
  ghost predicate Effect(program: seq<Token>, pc: nat, st: State, ok: bool, pc': nat, st': State)
    requires pc < |program|
  {
    var p, mem := st.pointer, st.memory;
    var inside := -|mem| <= p < |mem|;
    var c := if p < 0 then p + |mem| else p;
    match program[pc]
    case Right => ok && pc' == pc + 1 && st' == st.(pointer := p + 1)
    case Left => ok && pc' == pc + 1 && st' == st.(pointer := p - 1)
    case Inc =>
      if inside then ok && pc' == pc + 1 && st' == st.(memory := mem[c := if mem[c] == 255 then 0 else mem[c] + 1])
      else !ok && st' == st
    case Dec =>
      if inside then ok && pc' == pc + 1 && st' == st.(memory := mem[c := if mem[c] == 0 then 255 else mem[c] - 1])
      else !ok && st' == st
    case Out =>
      if inside then ok && pc' == pc + 1 && st' == st.(output := st.output + [mem[c]]) else !ok && st' == st
    case In =>
      if st.input == [] then !ok && st' == st
      else if inside then ok && pc' == pc + 1 && st' == st.(memory := mem[c := st.input[0]], input := st.input[1..])
      else !ok && st' == st.(input := st.input[1..])
    case Open =>
      && st' == st
      && if !inside then !ok
         else if mem[c] != 0 then ok && pc' == pc + 1
         else if ok then pc' > 0 && Partners(program, pc, pc' - 1)
         else forall close: nat :: !Partners(program, pc, close)
    case Close =>
      st' == st && if ok then Partners(program, pc', pc) else forall open: nat :: !Partners(program, open, pc)
  }

  lemma StepHasEffect(program: seq<Token>, pc: nat, st: State)
    requires pc < |program|
    ensures var o := Step(program, pc, st); Effect(program, pc, st, o.Paused?, if o.Paused? then o.pc else 0, o.st)
  {
    var o := Step(program, pc, st);
    if program[pc] == Open {
      ForwardIsPartner(program, pc, if o.Paused? && o.pc > 0 then o.pc - 1 else 0);
      hide Partners, Forward;
    } else if program[pc] == Close {
      BackwardIsPartner(program, if o.Paused? then o.pc else 0, pc);
      hide Partners, Backward;
    }
  }

  lemma SumModulo(v: nat, k: nat)
    requires k > 0
    ensures ((v + 1) % 0x100 + (k - 1)) % 0x100 == (v + k) % 0x100
  {
  }

  /** k increments and an output put out the cell's value plus k, modulo 256. */
  lemma {:induction false} IncrementsThenOutput(program: seq<Token>, pc: nat, st: State, k: nat)
    requires 0 <= st.pointer < |st.memory| && |program| == pc + k + 1 && program[pc + k] == Out
    requires forall i | pc <= i < pc + k :: program[i] == Inc
    ensures var b: byte := (st.memory[st.pointer] as int + k) % 0x100;
            Run(program, pc, st, k + 1) == Halted(st.(memory := st.memory[st.pointer := b], output := st.output + [b]))
    decreases k
  {
    var v := st.memory[st.pointer] as int;
    if k == 0 {
      assert st.memory[st.pointer := v] == st.memory;
      assert Step(program, pc, st) == Paused(pc + 1, st.(output := st.output + [st.memory[st.pointer]]));
    } else {
      var b: byte := (v + 1) % 0x100;
      var next := st.(memory := st.memory[st.pointer := b]);
      assert Step(program, pc, st) == Paused(pc + 1, next);
      IncrementsThenOutput(program, pc + 1, next, k - 1);
      SumModulo(v, k);
    }
  }

  /** The loop that counts a cell down halts with the cell zero and everything else as it was. */
  lemma {:induction false} CountDownLoop(st: State)
    requires 0 <= st.pointer < |st.memory|
    ensures var v := st.memory[st.pointer] as int;
            Run([Open, Dec, Close], 0, st, 3 * v + 1) == Halted(st.(memory := st.memory[st.pointer := 0]))
    decreases st.memory[st.pointer]
  {
    var program, v := [Open, Dec, Close], st.memory[st.pointer] as int;
    assert Flatten(Cmd(Dec, End)) == [Dec];
    assert program[0..3] == Flatten(Loop(Cmd(Dec, End), End));
    ScansFindPartner(program, 0, Cmd(Dec, End), End);
    if v == 0 {
      assert st.memory[st.pointer := 0] == st.memory;
      assert Step(program, 0, st) == Paused(3, st);
    } else {
      var next := st.(memory := st.memory[st.pointer := v - 1]);
      assert Step(program, 0, st) == Paused(1, st);
      assert Step(program, 1, st) == Paused(2, next);
      assert Step(program, 2, next) == Paused(0, next);
      var n := 3 * (v - 1) + 1;
      RunStep(program, 0, st, n + 3);
      RunStep(program, 1, st, n + 2);
      RunStep(program, 2, next, n + 1);
      CountDownLoop(next);
    }
  }

  // ---------------------------------------------------------------- the interpreter object

  class Interpreter {
    const program: seq<Token>
    const memory: array<byte>
    var pointer: int
    var programCounter: nat
    var input: seq<byte>
    var output: seq<byte>

    constructor (program: seq<Token>, memsize: nat, input: seq<byte>)
      ensures this.program == program && fresh(memory) && programCounter == 0
      ensures Contents() == State(seq(memsize, _ => 0), 0, input, [])
    {
      this.program := program;
      memory := new byte[memsize](_ => 0);
      pointer, programCounter, this.input, output := 0, 0, input, [];
    }

    ghost function Contents(): State
      reads this, memory
    {
      State(memory[..], pointer, input, output)
    }

    ghost function Outcome(ok: bool): Outcome
      reads this, memory
    {
      if !ok then Crashed(Contents())
      else if programCounter >= |program| then Halted(Contents())
      else Paused(programCounter, Contents())
    }

    /** Jumps past the matching end_loop. */
    method ScanForward() returns (ok: bool)
      requires programCounter < |program|
      modifies this`programCounter
      ensures ok <==> Forward(program, old(programCounter), 0).Some?
      ensures ok ==> programCounter == Forward(program, old(programCounter), 0).value
    {
      var nesting := 0;
      while true
        invariant programCounter <= |program|
        invariant Forward(program, old(programCounter), 0) == Forward(program, programCounter, nesting)
        decreases |program| - programCounter
      {
        if programCounter >= |program| { return false; }
        nesting := nesting + Nest(program[programCounter]);
        programCounter := programCounter + 1;
        if nesting == 0 { return true; }
      }
    }

    /** Jumps to the matching start_loop. */
    method ScanBackward() returns (ok: bool)
      requires programCounter < |program|
      modifies this`programCounter
      ensures ok <==> Backward(program, old(programCounter), 0).Some?
      ensures ok ==> programCounter == Backward(program, old(programCounter), 0).value
    {
      var nesting := 0;
      while true
        invariant programCounter < |program|
        invariant Backward(program, old(programCounter), 0) == Backward(program, programCounter, nesting)
        decreases programCounter
      {
        nesting := nesting + Nest(program[programCounter]);
        if nesting == 0 { return true; }
        if programCounter == 0 { return false; }
        programCounter := programCounter - 1;
      }
    }

    /** One turn of the run loop; false is an exception. */
    method Turn() returns (ok: bool)
      requires programCounter < |program|
      modifies this, memory
      ensures Effect(program, old(programCounter), old(Contents()), ok, if ok then programCounter else 0, Contents())
      ensures ok <==> Step(program, old(programCounter), old(Contents())).Paused?
      ensures ok ==> Paused(programCounter, Contents()) == Step(program, old(programCounter), old(Contents()))
      ensures !ok ==> Contents() == Step(program, old(programCounter), old(Contents())).st
    {
      StepHasEffect(program, programCounter, Contents());
      hide Forward, Backward, Effect, Partners;
      var t := program[programCounter];
      if t == Right {
        pointer := pointer + 1;
      } else if t == Left {
        pointer := pointer - 1;
      } else if t == Close {
        ok := ScanBackward();
        return;
      } else if t == In {
        if input == [] { return false; }
        var byte := input[0];
        input := input[1..];
        var cell := Cell(memory.Length, pointer);
        if cell.None? { return false; }
        memory[cell.value] := byte;
      } else {
        var cell := Cell(memory.Length, pointer);
        if cell.None? { return false; }
        if t == Inc {
          memory[cell.value] := (memory[cell.value] as int + 1) % 0x100;
        } else if t == Dec {
          memory[cell.value] := (memory[cell.value] as int - 1) % 0x100;
        } else if t == Out {
          output := output + [memory[cell.value]];
        } else if memory[cell.value] == 0 {
          ok := ScanForward();
          return;
        }
      }
      programCounter := programCounter + 1;
      ok := true;
    }

    /** At most n turns of the run loop. */
    method RunFor(n: nat) returns (ok: bool)
      modifies this, memory
      ensures Outcome(ok) == Run(program, old(programCounter), old(Contents()), n)
    {
      ok := true;
      var i := n;
      while i > 0 && programCounter < |program|
        invariant Run(program, old(programCounter), old(Contents()), n) == Run(program, programCounter, Contents(), i)
      {
        hide Step;
        RunStep(program, programCounter, Contents(), i);
        ok := Turn();
        if !ok { return; }
        i := i - 1;
      }
    }
  }
}
