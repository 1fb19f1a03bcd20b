/** Robot Odyssey chips: the bytecode format, and the recursive parser of nested chips. */
module ChipFormat {
  import opened Basics

  type bit = b: int | 0 <= b <= 1

  /** A pin address, relative to its chip; its high byte cannot be the list terminator. */
  type Addr = a: int | 0 <= a < 0xFF00

  const NESTED: byte := 6

  const NODES: byte := 7

  const END_OF_LIST: byte := 0xFF

  /**
   * A chip: the states of its eight pins, its gates and nested chips, and the lists of the closing
   * bytecode, each a source address and its destinations. A gate has its opcode, the states of the
   * pins kept in the bytecode itself, and its lists of output addresses.
   */
  datatype Chip = Chip(pins: seq<bit>, parts: seq<Part>, nodes: seq<seq<Addr>>)

  datatype Part = Gate(op: byte, states: seq<bit>, outs: seq<seq<Addr>>) | Nested(chip: Chip)

  /** AND, OR and XOR have two inputs, NOT one, the flip flop two inputs and two state pins. */
  predicate IsGate(op: byte) {
    1 <= op <= 5
  }

  function PinCount(op: byte): nat {
    if op == 4 then 1 else if op == 5 then 4 else 2
  }

  function ListCount(op: byte): nat {
    if op == 5 then 2 else 1
  }

  predicate Valid(c: Chip)
    decreases c, 1
  {
    |c.pins| == 8 && ValidParts(c.parts) && forall i | 0 <= i < |c.nodes| :: c.nodes[i] != []
  }

  predicate ValidParts(ps: seq<Part>)
    decreases ps, 0
  {
    ps != [] ==> ValidPart(ps[0]) && ValidParts(ps[1..])
  }

  predicate ValidPart(p: Part)
    decreases p, 2
  {
    match p
    case Gate(op, states, outs) => IsGate(op) && |states| == PinCount(op) && |outs| == ListCount(op)
    case Nested(c) => Valid(c)
  }

  // ---------------------------------------------------------------- assembling

  function Addrs(list: seq<Addr>): seq<byte> {
    if list == [] then [END_OF_LIST] else [list[0] / 0x100, list[0] % 0x100] + Addrs(list[1..])
  }

  function Lists(lists: seq<seq<Addr>>): seq<byte> {
    if lists == [] then [] else Addrs(lists[0]) + Lists(lists[1..])
  }

  function Bits(states: seq<bit>): (bs: seq<byte>)
    ensures |bs| == |states|
  {
    seq(|states|, i requires 0 <= i < |states| => states[i])
  }

  function Assemble(c: Chip): seq<byte>
    decreases c, 1
  {
    Bits(c.pins) + AssembleParts(c.parts) + [NODES] + Lists(c.nodes) + Addrs([])
  }

  function AssembleParts(ps: seq<Part>): seq<byte>
    decreases ps, 0
  {
    if ps == [] then [] else AssemblePart(ps[0]) + AssembleParts(ps[1..])
  }

  function AssemblePart(p: Part): seq<byte>
    decreases p, 2
  {
    match p
    case Gate(op, states, outs) => [op] + Bits(states) + Lists(outs)
    case Nested(c) => [NESTED] + Assemble(c)
  }

  // ---------------------------------------------------------------- addresses

  /** The byte at an absolute address exists and is a pin state. */
  predicate PinOk(root: seq<byte>, a: nat) {
    a < |root| && root[a] <= 1
  }

  predicate AddrsOk(root: seq<byte>, base: nat, list: seq<Addr>) {
    forall i | 0 <= i < |list| :: PinOk(root, base + list[i])
  }

  predicate ListsOk(root: seq<byte>, base: nat, lists: seq<seq<Addr>>) {
    forall i | 0 <= i < |lists| :: AddrsOk(root, base, lists[i])
  }

  /** Every address in the chip at base names a pin state; those of a nested chip are relative to that chip. */
  predicate ChipOk(root: seq<byte>, base: nat, c: Chip)
    decreases c, 1
  {
    PartsOk(root, base, base + |c.pins|, c.parts) && ListsOk(root, base, c.nodes)
  }

  predicate PartsOk(root: seq<byte>, base: nat, pos: nat, ps: seq<Part>)
    decreases ps, 0
  {
    ps != [] ==> PartOk(root, base, pos, ps[0]) && PartsOk(root, base, pos + |AssemblePart(ps[0])|, ps[1..])
  }

  predicate PartOk(root: seq<byte>, base: nat, pos: nat, p: Part)
    decreases p, 2
  {
    match p
    case Gate(_, _, outs) => ListsOk(root, base, outs)
    case Nested(c) => ChipOk(root, pos + 1, c)
  }

  // ---------------------------------------------------------------- parsing

  /** Reads n consecutive pins of the bytecode itself. */
  function ReadPins(root: seq<byte>, pos: nat, n: nat): (r: Option<seq<bit>>)
    ensures r.Some? ==> |r.value| == n && (n > 0 ==> pos + n <= |root|)
    decreases n
  {
    if n == 0 then Some([])
    else if !PinOk(root, pos) then None
    else
      match ReadPins(root, pos + 1, n - 1)
      case None => None
      case Some(rest) => Some([root[pos]] + rest)
  }

  /** Reads one address list; the result is the list and the position after its terminator. */
  function ReadAddrs(root: seq<byte>, base: nat, pos: nat): (r: Option<(seq<Addr>, nat)>)
    ensures r.Some? ==> pos < r.value.1 <= |root|
    decreases |root| - pos
  {
    if |root| <= pos then None
    else if root[pos] == END_OF_LIST then Some(([], pos + 1))
    else if |root| <= pos + 1 then None
    else
      var a: Addr := root[pos] as int * 0x100 + root[pos + 1];
      if !PinOk(root, base + a) then None
      else
        match ReadAddrs(root, base, pos + 2)
        case None => None
        case Some((rest, end)) => Some(([a] + rest, end))
  }

  function ReadLists(root: seq<byte>, base: nat, pos: nat, n: nat): (r: Option<(seq<seq<Addr>>, nat)>)
    ensures r.Some? ==> |r.value.0| == n && pos <= r.value.1 && (n > 0 ==> r.value.1 <= |root|)
    decreases n
  {
    if n == 0 then Some(([], pos))
    else
      match ReadAddrs(root, base, pos)
      case None => None
      case Some((list, next)) =>
        match ReadLists(root, base, next, n - 1)
        case None => None
        case Some((rest, end)) => Some(([list] + rest, end))
  }

  /** The lists of the closing bytecode, up to the first empty one. */
  function ReadNodes(root: seq<byte>, base: nat, pos: nat): (r: Option<(seq<seq<Addr>>, nat)>)
    ensures r.Some? ==> pos < r.value.1 <= |root|
    decreases |root| - pos
  {
    match ReadAddrs(root, base, pos)
    case None => None
    case Some((list, next)) =>
      if list == [] then Some(([], next))
      else
        match ReadNodes(root, base, next)
        case None => None
        case Some((rest, end)) => Some(([list] + rest, end))
  }

  function ReadGate(root: seq<byte>, base: nat, pos: nat, op: byte): (r: Option<(Part, nat)>)
    ensures r.Some? ==> pos < r.value.1 <= |root|
  {
    match ReadPins(root, pos, PinCount(op))
    case None => None
    case Some(states) =>
      match ReadLists(root, base, pos + PinCount(op), ListCount(op))
      case None => None
      case Some((outs, end)) => Some((Gate(op, states, outs), end))
  }

  /** The bytecodes of the chip at base from pos on: its parts, the lists of the closing bytecode, the end. */
  function ReadCode(root: seq<byte>, base: nat, pos: nat): (r: Option<(seq<Part>, seq<seq<Addr>>, nat)>)
    ensures r.Some? ==> pos < r.value.2 <= |root|
    decreases |root| - pos, 0
  {
    if |root| <= pos then None
    else if root[pos] == NODES then
      match ReadNodes(root, base, pos + 1)
      case None => None
      case Some((nodes, end)) => Some(([], nodes, end))
    else
      match ReadPart(root, base, pos)
      case None => None
      case Some((part, next)) =>
        match ReadCode(root, base, next)
        case None => None
        case Some((parts, nodes, end)) => Some(([part] + parts, nodes, end))
  }

  function ReadPart(root: seq<byte>, base: nat, pos: nat): (r: Option<(Part, nat)>)
    requires pos < |root|
    ensures r.Some? ==> pos < r.value.1 <= |root|
    decreases |root| - pos - 1, 1
  {
    if IsGate(root[pos]) then ReadGate(root, base, pos + 1, root[pos])
    else if root[pos] == NESTED then
      match ReadChip(root, pos + 1)
      case None => None
      case Some((c, end)) => Some((Nested(c), end))
    else None
  }

  /** The chip that starts at base, and where it ends. A nested chip has addresses of its own. */
  function ReadChip(root: seq<byte>, base: nat): (r: Option<(Chip, nat)>)
    ensures r.Some? ==> base < r.value.1 <= |root|
    decreases |root| - base, 0
  {
    match ReadPins(root, base, 8)
    case None => None
    case Some(pins) =>
      match ReadCode(root, base, base + 8)
      case None => None
      case Some((parts, nodes, end)) => Some((Chip(pins, parts, nodes), end))
  }

  // ---------------------------------------------------------------- what the readers accept

  lemma {:induction false} PinsSound(root: seq<byte>, pos: nat, n: nat)
    requires ReadPins(root, pos, n).Some? && pos <= |root|
    ensures Holds(root, pos, Bits(ReadPins(root, pos, n).value))
    decreases n
  {
    var s := ReadPins(root, pos, n).value;
    if n > 0 {
      PinsSound(root, pos + 1, n - 1);
      HoldsOne(root, pos, s[0] as byte);
      HoldsAppend(root, pos, [s[0] as byte], Bits(s[1..]));
      assert Bits(s) == [s[0] as byte] + Bits(s[1..]);
    }
  }

  lemma {:induction false} PinsComplete(root: seq<byte>, pos: nat, s: seq<bit>)
    requires Holds(root, pos, Bits(s))
    ensures ReadPins(root, pos, |s|) == Some(s)
    decreases s
  {
    if s != [] {
      assert Bits(s) == [s[0] as byte] + Bits(s[1..]);
      HoldsAppend(root, pos, [s[0] as byte], Bits(s[1..]));
      HoldsOne(root, pos, s[0] as byte);
      PinsComplete(root, pos + 1, s[1..]);
      assert s == [s[0]] + s[1..];
    }
  }

  lemma HoldsTwo(root: seq<byte>, pos: nat, a: byte, b: byte, rest: seq<byte>)
    ensures Holds(root, pos, [a, b] + rest) <==>
              pos + 1 < |root| && root[pos] == a && root[pos + 1] == b && Holds(root, pos + 2, rest)
  {
    hide *;
    assert [a, b] == [a] + [b];
    HoldsAppend(root, pos, [a, b], rest);
    HoldsAppend(root, pos, [a], [b]);
    HoldsOne(root, pos, a);
    HoldsOne(root, pos + 1, b);
  }

  lemma HoldsAddr(root: seq<byte>, pos: nat, list: seq<Addr>)
    requires list != []
    ensures Holds(root, pos, Addrs(list)) <==>
            && pos + 1 < |root| && root[pos] == list[0] / 0x100 && root[pos + 1] == list[0] % 0x100
            && Holds(root, pos + 2, Addrs(list[1..]))
  {
    hide Holds;
    HoldsTwo(root, pos, list[0] / 0x100, list[0] % 0x100, Addrs(list[1..]));
  }

  lemma {:induction false} AddrsSound(root: seq<byte>, base: nat, pos: nat)
    requires ReadAddrs(root, base, pos).Some?
    ensures var (list, end) := ReadAddrs(root, base, pos).value;
            Holds(root, pos, Addrs(list)) && end == pos + |Addrs(list)| && AddrsOk(root, base, list)
    decreases |root| - pos
  {
    var (list, end) := ReadAddrs(root, base, pos).value;
    if list == [] {
      HoldsOne(root, pos, END_OF_LIST);
    } else {
      AddrsSound(root, base, pos + 2);
      var rest := ReadAddrs(root, base, pos + 2).value.0;
      assert list[1..] == rest;
      HoldsAddr(root, pos, list);
      forall i | 0 <= i < |list| ensures PinOk(root, base + list[i]) {
        assert i > 0 ==> list[i] == rest[i - 1];
      }
    }
  }

  lemma {:induction false} AddrsComplete(root: seq<byte>, base: nat, pos: nat, list: seq<Addr>)
    requires Holds(root, pos, Addrs(list)) && AddrsOk(root, base, list)
    ensures ReadAddrs(root, base, pos) == Some((list, pos + |Addrs(list)|))
    decreases list
  {
    if list == [] {
      HoldsOne(root, pos, END_OF_LIST);
    } else {
      HoldsAddr(root, pos, list);
      AddrsComplete(root, base, pos + 2, list[1..]);
      assert PinOk(root, base + list[0]);
      assert list == [list[0]] + list[1..];
    }
  }

  lemma ListsOkCons(root: seq<byte>, base: nat, lists: seq<seq<Addr>>)
    requires lists != []
    ensures ListsOk(root, base, lists) <==> AddrsOk(root, base, lists[0]) && ListsOk(root, base, lists[1..])
  {
    hide AddrsOk;
    if AddrsOk(root, base, lists[0]) && ListsOk(root, base, lists[1..]) {
      forall i | 0 <= i < |lists| ensures AddrsOk(root, base, lists[i]) {
        assert i > 0 ==> lists[i] == lists[1..][i - 1];
      }
    }
  }

  lemma NoLists(root: seq<byte>, base: nat, pos: nat)
    requires pos <= |root|
    ensures Holds(root, pos, Lists([])) && Lists([]) == [] && ListsOk(root, base, [])
  {
  }

  lemma {:induction false} ListsSound(root: seq<byte>, base: nat, pos: nat, n: nat)
    requires ReadLists(root, base, pos, n).Some? && pos <= |root|
    ensures var (lists, end) := ReadLists(root, base, pos, n).value;
            Holds(root, pos, Lists(lists)) && end == pos + |Lists(lists)| && ListsOk(root, base, lists)
    decreases n
  {
    hide Holds, AddrsOk, ListsOk, ReadAddrs;
    if n == 0 {
      NoLists(root, base, pos);
    } else {
      var (lists, end) := ReadLists(root, base, pos, n).value;
      AddrsSound(root, base, pos);
      var (list, next) := ReadAddrs(root, base, pos).value;
      ListsSound(root, base, next, n - 1);
      assert lists[0] == list && lists[1..] == ReadLists(root, base, next, n - 1).value.0;
      HoldsAppend(root, pos, Addrs(list), Lists(lists[1..]));
      ListsOkCons(root, base, lists);
    }
  }

  lemma {:induction false} ListsComplete(root: seq<byte>, base: nat, pos: nat, lists: seq<seq<Addr>>)
    requires Holds(root, pos, Lists(lists)) && ListsOk(root, base, lists)
    ensures ReadLists(root, base, pos, |lists|) == Some((lists, pos + |Lists(lists)|))
    decreases lists
  {
    hide Holds, AddrsOk, ListsOk, ReadAddrs, Addrs;
    if lists != [] {
      HoldsAppend(root, pos, Addrs(lists[0]), Lists(lists[1..]));
      ListsOkCons(root, base, lists);
      AddrsComplete(root, base, pos, lists[0]);
      ListsComplete(root, base, pos + |Addrs(lists[0])|, lists[1..]);
      assert lists == [lists[0]] + lists[1..];
    }
  }

  ghost predicate NonEmpty(lists: seq<seq<Addr>>) {
    forall i | 0 <= i < |lists| :: lists[i] != []
  }

  lemma {:induction false} NodesSound(root: seq<byte>, base: nat, pos: nat)
    requires ReadNodes(root, base, pos).Some?
    ensures var (nodes, end) := ReadNodes(root, base, pos).value;
            && Holds(root, pos, Lists(nodes) + Addrs([])) && end == pos + |Lists(nodes)| + 1
            && ListsOk(root, base, nodes) && NonEmpty(nodes)
    decreases |root| - pos
  {
    hide Holds, AddrsOk, ListsOk, ReadAddrs;
    var (nodes, end) := ReadNodes(root, base, pos).value;
    AddrsSound(root, base, pos);
    var (list, next) := ReadAddrs(root, base, pos).value;
    if list == [] {
      NoLists(root, base, |root|);
      assert Lists([]) + Addrs([]) == Addrs([]);
    } else {
      NodesSound(root, base, next);
      var rest := ReadNodes(root, base, next).value.0;
      assert nodes[0] == list && nodes[1..] == rest;
      HoldsAppend(root, pos, Addrs(list), Lists(rest) + Addrs([]));
      assert Addrs(list) + (Lists(rest) + Addrs([])) == Lists(nodes) + Addrs([]);
      ListsOkCons(root, base, nodes);
      forall i | 0 <= i < |nodes| ensures nodes[i] != [] { assert i > 0 ==> nodes[i] == rest[i - 1]; }
    }
  }

  lemma {:induction false} NodesComplete(root: seq<byte>, base: nat, pos: nat, nodes: seq<seq<Addr>>)
    requires Holds(root, pos, Lists(nodes) + Addrs([])) && ListsOk(root, base, nodes) && NonEmpty(nodes)
    ensures ReadNodes(root, base, pos) == Some((nodes, pos + |Lists(nodes)| + 1))
    decreases nodes
  {
    hide Holds, AddrsOk, ListsOk, ReadAddrs;
    if nodes == [] {
      assert Lists([]) + Addrs([]) == Addrs([]);
      AddrsComplete(root, base, pos, []);
    } else {
      var first, rest := nodes[0], nodes[1..];
      assert nodes == [first] + rest;
      assert Addrs(first) + (Lists(rest) + Addrs([])) == Lists(nodes) + Addrs([]);
      HoldsAppend(root, pos, Addrs(first), Lists(rest) + Addrs([]));
      ListsOkCons(root, base, nodes);
      AddrsComplete(root, base, pos, first);
      assert NonEmpty(rest);
      NodesComplete(root, base, pos + |Addrs(first)|, rest);
    }
  }

  // ---------------------------------------------------------------- parts and whole chips

  lemma GateHolds(root: seq<byte>, pos: nat, part: Part)
    requires part.Gate? && ValidPart(part)
    ensures var at := pos + 1 + |part.states|;
            && |AssemblePart(part)| == 1 + |part.states| + |Lists(part.outs)|
            && (Holds(root, pos, AssemblePart(part)) <==>
                  && pos < |root| && root[pos] == part.op
                  && Holds(root, pos + 1, Bits(part.states)) && Holds(root, at, Lists(part.outs)))
  {
    hide Holds;
    HoldsOne(root, pos, part.op);
    HoldsAppend(root, pos, [part.op], Bits(part.states));
    HoldsAppend(root, pos, [part.op] + Bits(part.states), Lists(part.outs));
  }

  lemma GateSound(root: seq<byte>, base: nat, pos: nat, op: byte)
    requires IsGate(op) && pos < |root| && root[pos] == op && ReadGate(root, base, pos + 1, op).Some?
    ensures var (part, end) := ReadGate(root, base, pos + 1, op).value;
            && ValidPart(part) && Holds(root, pos, AssemblePart(part)) && end == pos + |AssemblePart(part)|
            && PartOk(root, base, pos, part)
  {
    var n := PinCount(op);
    hide Holds, ListsOk, ReadPins, ReadLists, AssemblePart, Bits, Lists;
    PinsSound(root, pos + 1, n);
    ListsSound(root, base, pos + 1 + n, ListCount(op));
    GateHolds(root, pos, ReadGate(root, base, pos + 1, op).value.0);
  }

  lemma GateComplete(root: seq<byte>, base: nat, pos: nat, part: Part)
    requires part.Gate? && ValidPart(part) && Holds(root, pos, AssemblePart(part)) && PartOk(root, base, pos, part)
    ensures pos < |root| && root[pos] == part.op
    ensures ReadGate(root, base, pos + 1, part.op) == Some((part, pos + |AssemblePart(part)|))
  {
    hide Holds, ListsOk, ReadPins, ReadLists, AssemblePart, Bits, Lists;
    GateHolds(root, pos, part);
    PinsComplete(root, pos + 1, part.states);
    ListsComplete(root, base, pos + 1 + |part.states|, part.outs);
  }

  function Code(parts: seq<Part>, nodes: seq<seq<Addr>>): seq<byte> {
    AssembleParts(parts) + [NODES] + Lists(nodes) + Addrs([])
  }

  lemma CodeNil(root: seq<byte>, pos: nat, nodes: seq<seq<Addr>>)
    ensures Holds(root, pos, Code([], nodes)) <==>
              pos < |root| && root[pos] == NODES && Holds(root, pos + 1, Lists(nodes) + Addrs([]))
    ensures |Code([], nodes)| == 2 + |Lists(nodes)|
  {
    assert Code([], nodes) == [NODES] + (Lists(nodes) + Addrs([]));
    HoldsAppend(root, pos, [NODES], Lists(nodes) + Addrs([]));
    HoldsOne(root, pos, NODES);
  }

  lemma CodeCons(root: seq<byte>, base: nat, pos: nat, part: Part, rest: seq<Part>, nodes: seq<seq<Addr>>)
    ensures var parts, next := [part] + rest, pos + |AssemblePart(part)|;
            && (Holds(root, pos, Code(parts, nodes)) <==>
                  Holds(root, pos, AssemblePart(part)) && Holds(root, next, Code(rest, nodes)))
            && |Code(parts, nodes)| == |AssemblePart(part)| + |Code(rest, nodes)|
            && (ValidParts(parts) <==> ValidPart(part) && ValidParts(rest))
            && (PartsOk(root, base, pos, parts) <==> PartOk(root, base, pos, part) && PartsOk(root, base, next, rest))
  {
    hide Holds;
    var parts := [part] + rest;
    assert parts[0] == part && parts[1..] == rest;
    assert Code(parts, nodes) == AssemblePart(part) + Code(rest, nodes);
    HoldsAppend(root, pos, AssemblePart(part), Code(rest, nodes));
  }

  lemma ChipHolds(root: seq<byte>, base: nat, c: Chip)
    ensures Holds(root, base, Assemble(c)) <==>
              Holds(root, base, Bits(c.pins)) && Holds(root, base + |c.pins|, Code(c.parts, c.nodes))
    ensures |Assemble(c)| == |c.pins| + |Code(c.parts, c.nodes)|
  {
    assert Assemble(c) == Bits(c.pins) + Code(c.parts, c.nodes);
    hide Holds;
    HoldsAppend(root, base, Bits(c.pins), Code(c.parts, c.nodes));
  }

  lemma {:induction false} ChipSound(root: seq<byte>, base: nat)
    requires ReadChip(root, base).Some?
    ensures var (c, end) := ReadChip(root, base).value;
            && Valid(c) && Holds(root, base, Assemble(c)) && end == base + |Assemble(c)| && ChipOk(root, base, c)
    decreases |root| - base, 0
  {
    hide Holds, ListsOk, ReadPins, ReadCode, Bits, Code, Assemble, ValidParts, PartsOk;
    PinsSound(root, base, 8);
    CodeSound(root, base, base + 8);
    ChipHolds(root, base, ReadChip(root, base).value.0);
  }

  lemma {:induction false} PartSound(root: seq<byte>, base: nat, pos: nat)
    requires pos < |root| && ReadPart(root, base, pos).Some?
    ensures var (part, end) := ReadPart(root, base, pos).value;
            && ValidPart(part) && Holds(root, pos, AssemblePart(part)) && end == pos + |AssemblePart(part)|
            && PartOk(root, base, pos, part)
    decreases |root| - pos - 1, 1
  {
    if IsGate(root[pos]) {
      GateSound(root, base, pos, root[pos]);
    } else {
      ChipSound(root, pos + 1);
      var c := ReadChip(root, pos + 1).value.0;
      HoldsOne(root, pos, NESTED);
      HoldsAppend(root, pos, [NESTED], Assemble(c));
    }
  }

  lemma {:induction false} CodeSound(root: seq<byte>, base: nat, pos: nat)
    requires ReadCode(root, base, pos).Some?
    ensures var (parts, nodes, end) := ReadCode(root, base, pos).value;
            && ValidParts(parts) && NonEmpty(nodes) && Holds(root, pos, Code(parts, nodes))
            && end == pos + |Code(parts, nodes)|
            && PartsOk(root, base, pos, parts) && ListsOk(root, base, nodes)
    decreases |root| - pos, 0
  {
    hide Holds, ListsOk, Code, AssemblePart;
    if root[pos] == NODES {
      NodesSound(root, base, pos + 1);
      CodeNil(root, pos, ReadCode(root, base, pos).value.1);
    } else {
      PartSound(root, base, pos);
      var (part, next) := ReadPart(root, base, pos).value;
      CodeSound(root, base, next);
      var (rest, nodes, _) := ReadCode(root, base, next).value;
      CodeCons(root, base, pos, part, rest, nodes);
    }
  }

  lemma {:induction false} ChipComplete(root: seq<byte>, base: nat, c: Chip)
    requires Valid(c) && Holds(root, base, Assemble(c)) && ChipOk(root, base, c)
    ensures ReadChip(root, base) == Some((c, base + |Assemble(c)|))
    decreases c, 1
  {
    hide Holds, ListsOk, ReadPins, ReadCode, Bits, Code, Assemble, ValidParts, PartsOk;
    ChipHolds(root, base, c);
    PinsComplete(root, base, c.pins);
    CodeComplete(root, base, base + 8, c.parts, c.nodes);
  }

  lemma {:induction false} CodeComplete(root: seq<byte>, base: nat, pos: nat, parts: seq<Part>, nodes: seq<seq<Addr>>)
    requires ValidParts(parts) && NonEmpty(nodes) && Holds(root, pos, Code(parts, nodes))
    requires PartsOk(root, base, pos, parts) && ListsOk(root, base, nodes)
    ensures ReadCode(root, base, pos) == Some((parts, nodes, pos + |Code(parts, nodes)|))
    decreases parts, 0
  {
    hide Holds, ListsOk, Code, AssemblePart;
    if parts == [] {
      CodeNil(root, pos, nodes);
      NodesComplete(root, base, pos + 1, nodes);
    } else {
      var part, rest := parts[0], parts[1..];
      assert parts == [part] + rest;
      CodeCons(root, base, pos, part, rest, nodes);
      PartComplete(root, base, pos, part);
      CodeComplete(root, base, pos + |AssemblePart(part)|, rest, nodes);
    }
  }

  lemma {:induction false} PartComplete(root: seq<byte>, base: nat, pos: nat, part: Part)
    requires ValidPart(part) && Holds(root, pos, AssemblePart(part)) && PartOk(root, base, pos, part)
    ensures pos < |root| && root[pos] != NODES
    ensures ReadPart(root, base, pos) == Some((part, pos + |AssemblePart(part)|))
    decreases part, 2
  {
    if part.Gate? {
      GateComplete(root, base, pos, part);
    } else {
      HoldsAppend(root, pos, [NESTED], Assemble(part.chip));
      HoldsOne(root, pos, NESTED);
      ChipComplete(root, pos + 1, part.chip);
    }
  }

  /**
   * The parser accepts exactly the images of valid chips whose addresses all name pin states, at every
   * nesting depth and whatever follows; it returns that chip and stops exactly at its end.
   */
  lemma ParsesExactlyImages(root: seq<byte>, base: nat, c: Chip, end: nat)
    ensures ReadChip(root, base) == Some((c, end)) <==>
            && Valid(c) && Holds(root, base, Assemble(c)) && end == base + |Assemble(c)|
            && ChipOk(root, base, c)
  {
    if ReadChip(root, base) == Some((c, end)) {
      ChipSound(root, base);
    }
    if Valid(c) && Holds(root, base, Assemble(c)) && ChipOk(root, base, c) {
      ChipComplete(root, base, c);
    }
  }

  // ---------------------------------------------------------------- the format, byte by byte

  lemma OneList(root: seq<byte>, base: nat, pos: nat)
    ensures var r := ReadAddrs(root, base, pos);
            ReadLists(root, base, pos, 1) == if r.None? then None else Some(([r.value.0], r.value.1))
  {
    hide ReadAddrs;
    var r := ReadAddrs(root, base, pos);
    if r.Some? {
      assert ReadLists(root, base, r.value.1, 0) == Some(([], r.value.1));
      assert [r.value.0] + [] == [r.value.0];
    }
  }

  lemma TwoLists(root: seq<byte>, base: nat, pos: nat)
    ensures var r := ReadAddrs(root, base, pos);
            (r.None? ==> ReadLists(root, base, pos, 2) == None) &&
            (r.Some? ==> var s := ReadAddrs(root, base, r.value.1);
                         ReadLists(root, base, pos, 2) ==
                         if s.None? then None else Some(([r.value.0, s.value.0], s.value.1)))
  {
    hide ReadAddrs;
    var r := ReadAddrs(root, base, pos);
    if r.Some? {
      OneList(root, base, r.value.1);
      var s := ReadAddrs(root, base, r.value.1);
      if s.Some? { assert [r.value.0] + [s.value.0] == [r.value.0, s.value.0]; }
    }
  }

  /** At pos lies a big-endian address, and there is a pin state at that address. */
  ghost predicate AddressBytes(root: seq<byte>, base: nat, pos: nat, a: Addr) {
    && pos + 1 < |root| && a == root[pos] as int * 256 + root[pos + 1]
    && base + a < |root| && root[base + a] <= 1
  }

  /** At pos lie the addresses of the list and a byte 255. */
  ghost predicate ListBytes(root: seq<byte>, base: nat, pos: nat, list: seq<Addr>) {
    && pos + 2 * |list| < |root| && root[pos + 2 * |list|] == 255
    && forall i | 0 <= i < |list| :: AddressBytes(root, base, pos + 2 * i, list[i])
  }

  ghost predicate PinBytes(root: seq<byte>, pos: nat, states: seq<bit>) {
    pos + |states| <= |root| && forall i | 0 <= i < |states| :: root[pos + i] == states[i]
  }

  /** At pos lies a gate: AND, OR, XOR, NOT or the flip flop, with its pins and then its lists. */
  ghost predicate GateBytes(root: seq<byte>, base: nat, pos: nat, part: Part, end: nat) {
    && part.Gate? && pos < |root| && part.op == root[pos] && PinBytes(root, pos + 1, part.states)
    && match root[pos] {
         case 1 | 2 | 3 =>
           && |part.states| == 2 && |part.outs| == 1
           && ListBytes(root, base, pos + 3, part.outs[0]) && end == pos + 4 + 2 * |part.outs[0]|
         case 4 =>
           && |part.states| == 1 && |part.outs| == 1
           && ListBytes(root, base, pos + 2, part.outs[0]) && end == pos + 3 + 2 * |part.outs[0]|
         case 5 =>
           && |part.states| == 4 && |part.outs| == 2
           && ListBytes(root, base, pos + 5, part.outs[0])
           && ListBytes(root, base, pos + 6 + 2 * |part.outs[0]|, part.outs[1])
           && end == pos + 7 + 2 * |part.outs[0]| + 2 * |part.outs[1]|
         case _ => false
       }
  }

  lemma ListBytesCons(root: seq<byte>, base: nat, pos: nat, list: seq<Addr>)
    requires list != []
    ensures ListBytes(root, base, pos, list) <==>
              AddressBytes(root, base, pos, list[0]) && ListBytes(root, base, pos + 2, list[1..])
  {
    hide AddressBytes;
    var rest := list[1..];
    assert forall i | 0 <= i < |rest| :: rest[i] == list[i + 1];
    if AddressBytes(root, base, pos, list[0]) && ListBytes(root, base, pos + 2, rest) {
      forall i | 0 <= i < |list| ensures AddressBytes(root, base, pos + 2 * i, list[i]) {
        assert i > 0 ==> list[i] == rest[i - 1] && pos + 2 * i == pos + 2 + 2 * (i - 1);
      }
    }
    if ListBytes(root, base, pos, list) {
      forall i | 0 <= i < |rest| ensures AddressBytes(root, base, pos + 2 + 2 * i, rest[i]) {
        assert pos + 2 + 2 * i == pos + 2 * (i + 1);
      }
    }
  }

  lemma {:induction false} ListAsBytes(root: seq<byte>, base: nat, pos: nat, list: seq<Addr>, end: nat)
    ensures ReadAddrs(root, base, pos) == Some((list, end)) <==>
              ListBytes(root, base, pos, list) && end == pos + 2 * |list| + 1
    decreases |root| - pos
  {
    if list != [] {
      ListBytesCons(root, base, pos, list);
      hide ListBytes;
      if pos < |root| {
        ListAsBytes(root, base, pos + 2, list[1..], end);
        assert list == [list[0]] + list[1..];
      }
    }
  }

  lemma {:induction false} PinsAsBytes(root: seq<byte>, pos: nat, states: seq<bit>)
    requires pos <= |root|
    ensures ReadPins(root, pos, |states|) == Some(states) <==> PinBytes(root, pos, states)
    decreases states
  {
    if states != [] {
      var rest := states[1..];
      assert states == [states[0]] + rest;
      if pos < |root| { PinsAsBytes(root, pos + 1, rest); }
      if pos < |root| && root[pos] == states[0] && PinBytes(root, pos + 1, rest) {
        forall i | 0 <= i < |states| ensures pos + i < |root| && root[pos + i] == states[i] {
          if i > 0 { assert states[i] == rest[i - 1]; }
        }
      }
      if PinBytes(root, pos, states) {
        forall i | 0 <= i < |rest| ensures root[pos + 1 + i] == rest[i] { assert rest[i] == states[i + 1]; }
      }
    }
  }

  lemma OneListAsBytes(root: seq<byte>, base: nat, pos: nat, a: seq<Addr>, end: nat)
    ensures ReadLists(root, base, pos, 1) == Some(([a], end)) <==>
              ListBytes(root, base, pos, a) && end == pos + 2 * |a| + 1
  {
    OneList(root, base, pos);
    hide *;
    ListAsBytes(root, base, pos, a, end);
    var r := ReadAddrs(root, base, pos);
    assert r.Some? && [r.value.0] == [a] ==> r.value.0 == [a][0];
  }

  lemma TwoListsAsBytes(root: seq<byte>, base: nat, pos: nat, a: seq<Addr>, b: seq<Addr>, end: nat)
    ensures var next := pos + 2 * |a| + 1;
            ReadLists(root, base, pos, 2) == Some(([a, b], end)) <==>
              ListBytes(root, base, pos, a) && ListBytes(root, base, next, b) && end == next + 2 * |b| + 1
  {
    TwoLists(root, base, pos);
    hide *;
    var r, next := ReadAddrs(root, base, pos), pos + 2 * |a| + 1;
    ListAsBytes(root, base, pos, a, next);
    ListAsBytes(root, base, next, b, end);
    if r.Some? {
      ListAsBytes(root, base, pos, r.value.0, r.value.1);
      var s := ReadAddrs(root, base, r.value.1);
      assert s.Some? && [r.value.0, s.value.0] == [a, b] ==> r.value.0 == [a, b][0] && s.value.0 == [a, b][1];
    }
  }

  lemma ReadGateIs(root: seq<byte>, base: nat, pos: nat, part: Part, end: nat)
    requires pos < |root| && part.Gate?
    ensures ReadPart(root, base, pos) == Some((part, end)) <==>
              && 1 <= root[pos] <= 5 && part.op == root[pos]
              && ReadPins(root, pos + 1, PinCount(root[pos])) == Some(part.states)
              && ReadLists(root, base, pos + 1 + PinCount(root[pos]), ListCount(root[pos])) == Some((part.outs, end))
  {
    hide ReadPins, ReadLists, PinCount, ListCount;
  }

  /** Exactly these bytes are read as a gate: one pin for NOT, four pins and two lists for the flip flop. */
  lemma GateAsBytes(root: seq<byte>, base: nat, pos: nat, part: Part, end: nat)
    requires pos < |root| && part.Gate?
    ensures ReadPart(root, base, pos) == Some((part, end)) <==> GateBytes(root, base, pos, part, end)
  {
    var at := pos + 1 + |part.states|;
    ReadGateIs(root, base, pos, part, end);
    PinsAsBytes(root, pos + 1, part.states);
    hide ReadPart, ReadPins, PinBytes, ReadLists;
    if |part.outs| == 1 {
      assert part.outs == [part.outs[0]];
      OneListAsBytes(root, base, at, part.outs[0], end);
    } else if |part.outs| == 2 {
      assert part.outs == [part.outs[0], part.outs[1]];
      TwoListsAsBytes(root, base, at, part.outs[0], part.outs[1], end);
    }
    hide ListBytes;
  }

  /** At pos lie nonempty lists, and then an empty one. */
  ghost predicate NodeBytes(root: seq<byte>, base: nat, pos: nat, nodes: seq<seq<Addr>>, end: nat)
    decreases nodes
  {
    if nodes == [] then ListBytes(root, base, pos, []) && end == pos + 1
    else
      && nodes[0] != [] && ListBytes(root, base, pos, nodes[0])
      && NodeBytes(root, base, pos + 2 * |nodes[0]| + 1, nodes[1..], end)
  }

  /** A chip: eight pins, gates and nested chips (a byte 6 and the chip), a byte 7 and the lists of the nodes. */
  ghost predicate ChipBytes(root: seq<byte>, base: nat, c: Chip, end: nat)
    decreases c, 1
  {
    |c.pins| == 8 && PinBytes(root, base, c.pins) && CodeBytes(root, base, base + 8, c.parts, c.nodes, end)
  }

  ghost predicate CodeBytes(root: seq<byte>, base: nat, pos: nat, parts: seq<Part>, nodes: seq<seq<Addr>>, end: nat)
    decreases parts, 0
  {
    if parts == [] then pos < |root| && root[pos] == 7 && NodeBytes(root, base, pos + 1, nodes, end)
    else exists next: nat :: PartBytes(root, base, pos, parts[0], next)
                             && CodeBytes(root, base, next, parts[1..], nodes, end)
  }

  ghost predicate PartBytes(root: seq<byte>, base: nat, pos: nat, part: Part, end: nat)
    decreases part, 2
  {
    match part
    case Gate(_, _, _) => GateBytes(root, base, pos, part, end)
    case Nested(c) => pos < |root| && root[pos] == 6 && ChipBytes(root, pos + 1, c, end)
  }

  lemma {:induction false} NodesAsBytes(root: seq<byte>, base: nat, pos: nat, nodes: seq<seq<Addr>>, end: nat)
    ensures ReadNodes(root, base, pos) == Some((nodes, end)) <==> NodeBytes(root, base, pos, nodes, end)
    decreases nodes
  {
    var r := ReadAddrs(root, base, pos);
    hide ReadAddrs, ListBytes;
    if r.Some? { ListAsBytes(root, base, pos, r.value.0, r.value.1); }
    if nodes == [] {
      ListAsBytes(root, base, pos, [], end);
    } else {
      var next := pos + 2 * |nodes[0]| + 1;
      ListAsBytes(root, base, pos, nodes[0], next);
      NodesAsBytes(root, base, next, nodes[1..], end);
      assert nodes == [nodes[0]] + nodes[1..];
    }
  }

  /** The parser's format, in bytes alone: it reads a chip exactly where these bytes lie. */
  lemma {:induction false} ChipAsBytes(root: seq<byte>, base: nat, c: Chip, end: nat)
    ensures ReadChip(root, base) == Some((c, end)) <==> ChipBytes(root, base, c, end)
    decreases c, 1
  {
    if |c.pins| == 8 && base <= |root| { PinsAsBytes(root, base, c.pins); }
    hide ReadPins, PinBytes, ReadCode, CodeBytes;
    CodeAsBytes(root, base, base + 8, c.parts, c.nodes, end);
  }

  lemma NextPart(root: seq<byte>, base: nat, pos: nat, parts: seq<Part>, nodes: seq<seq<Addr>>, end: nat)
    returns (next: nat)
    requires parts != [] && CodeBytes(root, base, pos, parts, nodes, end)
    ensures PartBytes(root, base, pos, parts[0], next) && CodeBytes(root, base, next, parts[1..], nodes, end)
  {
    next :| PartBytes(root, base, pos, parts[0], next) && CodeBytes(root, base, next, parts[1..], nodes, end);
  }

  lemma {:induction false} CodeAsBytes(root: seq<byte>, base: nat, pos: nat, parts: seq<Part>,
                                       nodes: seq<seq<Addr>>, end: nat)
    ensures ReadCode(root, base, pos) == Some((parts, nodes, end)) <==>
              CodeBytes(root, base, pos, parts, nodes, end)
    decreases parts, 0
  {
    hide ReadPart, PartBytes, ReadNodes, NodeBytes;
    if parts == [] {
      NodesAsBytes(root, base, pos + 1, nodes, end);
    } else {
      assert parts == [parts[0]] + parts[1..];
      if pos < |root| && ReadPart(root, base, pos).Some? {
        var (part, next) := ReadPart(root, base, pos).value;
        if part == parts[0] { PartAsBytes(root, base, pos, part, next); }
        CodeAsBytes(root, base, next, parts[1..], nodes, end);
      }
      if CodeBytes(root, base, pos, parts, nodes, end) {
        var next := NextPart(root, base, pos, parts, nodes, end);
        PartAsBytes(root, base, pos, parts[0], next);
        CodeAsBytes(root, base, next, parts[1..], nodes, end);
      }
    }
  }

  lemma GateByte(root: seq<byte>, base: nat, pos: nat, part: Part, end: nat)
    ensures GateBytes(root, base, pos, part, end) ==> pos < |root| && root[pos] != 7
  {
    hide PinBytes, ListBytes;
  }

  lemma {:induction false} PartAsBytes(root: seq<byte>, base: nat, pos: nat, part: Part, end: nat)
    ensures pos < |root| && root[pos] != 7 && ReadPart(root, base, pos) == Some((part, end)) <==>
              PartBytes(root, base, pos, part, end)
    decreases part, 2
  {
    if pos < |root| {
      hide GateBytes, ReadChip, ChipBytes;
      if part.Gate? {
        GateAsBytes(root, base, pos, part, end);
        GateByte(root, base, pos, part, end);
      } else {
        ChipAsBytes(root, pos + 1, part.chip, end);
      }
    }
  }
}
