/** The chip parser as it runs: chips append parts, and all nesting levels fill one shared map of pins. */
module ChipParser {
  import opened Basics
  import opened ChipFormat

  class Pin {
    const state: bit

    constructor (state: bit)
      ensures this.state == state
    {
      this.state := state;
    }

  }

  /** Every pin has the state of the byte at its absolute address, and no two addresses share a pin. */
  ghost predicate MapOk(m: map<nat, Pin>, root: seq<byte>) {
    && (forall a | a in m :: a < |root| && root[a] == m[a].state)
    && (forall a, b | a in m && b in m && m[a] == m[b] :: a == b)
  }

  /** Pins are only ever added: an address that has a pin keeps that very object. */
  ghost predicate Grows(m: map<nat, Pin>, m': map<nat, Pin>) {
    forall a | a in m :: a in m' && m'[a] == m[a]
  }

  ghost predicate PinAt(m: map<nat, Pin>, a: nat, pin: Pin) {
    a in m && m[a] == pin
  }

  class PinMap {
    var pins: map<nat, Pin>

    constructor ()
      ensures pins == map[]
    {
      pins := map[];
    }

  }

  /** A window on the shared map, displaced by the absolute position of its chip. */
  class AddressSpace {
    const offset: nat
    const shared: PinMap

    constructor (offset: nat, shared: PinMap)
      ensures this.offset == offset && this.shared == shared
    {
      this.offset, this.shared := offset, shared;
    }

    method Offset(x: nat) returns (space: AddressSpace)
      ensures space.offset == offset + x && space.shared == shared
    {
      space := new AddressSpace(offset + x, shared);
    }

    /** The pin at an offset, created on first use; none if the address or the state is bad. */
    method LookupPin(data: seq<byte>, a: nat, ghost root: seq<byte>) returns (pin: Option<Pin>)
      requires MapOk(shared.pins, root) && offset <= |root| && data == root[offset..]
      modifies shared
      ensures MapOk(shared.pins, root) && Grows(old(shared.pins), shared.pins)
      ensures pin.Some? <==> PinOk(root, offset + a)
      ensures pin.Some? ==> PinAt(shared.pins, offset + a, pin.value)
    {
      var address := offset + a;
      if |data| <= a { return None; }
      assert data[a] == root[address];
      if address in shared.pins {
        pin := Some(shared.pins[address]);
      } else if data[a] > 1 {
        pin := None;
      } else {
        var created := new Pin(data[a]);
        shared.pins := shared.pins[address := created];
        pin := Some(created);
      }
    }
  }

  /** Parts as the parser builds them, with references to pins in place of addresses. */
  datatype Wired =
    | WiredGate(op: byte, inputs: seq<Pin>, outs: seq<seq<Pin>>)
    | WiredChip(pins: seq<Pin>, parts: seq<Wired>)
    | WiredNode(source: Pin, dests: seq<Pin>)

  // ---------------------------------------------------------------- one pin per absolute address

  ghost predicate WiredPins(m: map<nat, Pin>, pos: nat, pins: seq<Pin>) {
    forall i | 0 <= i < |pins| :: PinAt(m, pos + i, pins[i])
  }

  ghost predicate WiredList(m: map<nat, Pin>, base: nat, list: seq<Addr>, pins: seq<Pin>) {
    |pins| == |list| && forall i | 0 <= i < |pins| :: PinAt(m, base + list[i], pins[i])
  }

  ghost predicate WiredLists(m: map<nat, Pin>, base: nat, lists: seq<seq<Addr>>, pins: seq<seq<Pin>>) {
    |pins| == |lists| && forall i | 0 <= i < |pins| :: WiredList(m, base, lists[i], pins[i])
  }

  ghost predicate WiredNodes(m: map<nat, Pin>, base: nat, nodes: seq<seq<Addr>>, ws: seq<Wired>) {
    && |ws| == |nodes|
    && forall i | 0 <= i < |ws| :: ws[i].WiredNode? && WiredList(m, base, nodes[i], [ws[i].source] + ws[i].dests)
  }

  /** The part w is p, placed at pos in the chip at base, each address replaced by its one pin in m. */
  ghost predicate WiredPart(m: map<nat, Pin>, base: nat, pos: nat, p: Part, w: Wired)
    decreases p, 2
  {
    match p
    case Gate(op, states, outs) =>
      && w.WiredGate? && w.op == op && |w.inputs| == |states|
      && WiredPins(m, pos + 1, w.inputs) && WiredLists(m, base, outs, w.outs)
    case Nested(c) => w.WiredChip? && IsWiring(m, pos + 1, c, w.pins, w.parts)
  }

  ghost predicate WiredParts(m: map<nat, Pin>, base: nat, pos: nat, ps: seq<Part>, ws: seq<Wired>)
    decreases ps, 0
  {
    && |ws| == |ps|
    && (ps != [] ==>
          && WiredPart(m, base, pos, ps[0], ws[0])
          && WiredParts(m, base, pos + |AssemblePart(ps[0])|, ps[1..], ws[1..]))
  }

  ghost predicate IsWiring(m: map<nat, Pin>, base: nat, c: Chip, pins: seq<Pin>, ws: seq<Wired>)
    decreases c, 1
  {
    && |pins| == |c.pins| && WiredPins(m, base, pins)
    && |ws| == |c.parts| + |c.nodes|
    && WiredParts(m, base, base + |c.pins|, c.parts, ws[..|c.parts|])
    && WiredNodes(m, base, c.nodes, ws[|c.parts|..])
  }

  lemma {:induction false} WiringGrows(m: map<nat, Pin>, m': map<nat, Pin>, base: nat, c: Chip,
                                       pins: seq<Pin>, ws: seq<Wired>)
    requires Grows(m, m') && IsWiring(m, base, c, pins, ws)
    ensures IsWiring(m', base, c, pins, ws)
    decreases c, 1
  {
    WiredPartsGrow(m, m', base, base + |c.pins|, c.parts, ws[..|c.parts|]);
  }

  lemma {:induction false} WiredPartsGrow(m: map<nat, Pin>, m': map<nat, Pin>, base: nat, pos: nat,
                                          ps: seq<Part>, ws: seq<Wired>)
    requires Grows(m, m') && WiredParts(m, base, pos, ps, ws)
    ensures WiredParts(m', base, pos, ps, ws)
    decreases ps, 0
  {
    if ps != [] {
      WiredPartGrows(m, m', base, pos, ps[0], ws[0]);
      WiredPartsGrow(m, m', base, pos + |AssemblePart(ps[0])|, ps[1..], ws[1..]);
    }
  }

  lemma {:induction false} WiredPartGrows(m: map<nat, Pin>, m': map<nat, Pin>, base: nat, pos: nat, p: Part, w: Wired)
    requires Grows(m, m') && WiredPart(m, base, pos, p, w)
    ensures WiredPart(m', base, pos, p, w)
    decreases p, 2
  {
    if p.Nested? { WiringGrows(m, m', pos + 1, p.chip, w.pins, w.parts); }
  }

  lemma {:induction false} WiredPartsAppend(m: map<nat, Pin>, base: nat, pos: nat, ps: seq<Part>, ws: seq<Wired>,
                                            p: Part, w: Wired)
    requires WiredParts(m, base, pos, ps, ws) && WiredPart(m, base, pos + |AssembleParts(ps)|, p, w)
    ensures WiredParts(m, base, pos, ps + [p], ws + [w])
    ensures |AssembleParts(ps + [p])| == |AssembleParts(ps)| + |AssemblePart(p)|
    decreases ps
  {
    if ps == [] {
      assert [p][1..] == [] && [w][1..] == [];
    } else {
      WiredPartsAppend(m, base, pos + |AssemblePart(ps[0])|, ps[1..], ws[1..], p, w);
      assert (ps + [p])[1..] == ps[1..] + [p] && (ws + [w])[1..] == ws[1..] + [w];
    }
  }

  lemma WiredNodesAppend(m: map<nat, Pin>, base: nat, nodes: seq<seq<Addr>>, ws: seq<Wired>, list: seq<Addr>, w: Wired)
    requires WiredNodes(m, base, nodes, ws)
    requires w.WiredNode? && WiredList(m, base, list, [w.source] + w.dests)
    ensures WiredNodes(m, base, nodes + [list], ws + [w])
  {
  }

  lemma NoNodesWired(m: map<nat, Pin>, base: nat)
    ensures WiredNodes(m, base, [], [])
  {
  }

  lemma WiredNodesGrow(m: map<nat, Pin>, m': map<nat, Pin>, base: nat, nodes: seq<seq<Addr>>, ws: seq<Wired>)
    requires Grows(m, m') && WiredNodes(m, base, nodes, ws)
    ensures WiredNodes(m', base, nodes, ws)
  {
  }

  lemma {:induction false} PinsReadable(root: seq<byte>, pos: nat, n: nat)
    ensures ReadPins(root, pos, n).Some? <==> forall a | pos <= a < pos + n :: PinOk(root, a)
    decreases n
  {
    if n > 0 {
      PinsReadable(root, pos + 1, n - 1);
    }
  }

  // ---------------------------------------------------------------- reading on from what has been read

  function AddrsAfter(got: seq<Addr>, r: Option<(seq<Addr>, nat)>): Option<(seq<Addr>, nat)> {
    match r
    case None => None
    case Some((list, end)) => Some((got + list, end))
  }

  /** One more address of a list has been read. */
  lemma AddrsStep(root: seq<byte>, base: nat, pos: nat, got: seq<Addr>, a: Addr)
    requires pos + 1 < |root| && root[pos] != END_OF_LIST && a == root[pos] as int * 0x100 + root[pos + 1]
    ensures PinOk(root, base + a) ==>
              AddrsAfter(got, ReadAddrs(root, base, pos)) == AddrsAfter(got + [a], ReadAddrs(root, base, pos + 2))
    ensures !PinOk(root, base + a) ==> AddrsAfter(got, ReadAddrs(root, base, pos)).None?
  {
    var r := ReadAddrs(root, base, pos + 2);
    if r.Some? { assert got + ([a] + r.value.0) == got + [a] + r.value.0; }
  }

  /** Nothing more can be read past the end of the data, and nothing is after the end of the list. */
  lemma AddrsLast(root: seq<byte>, base: nat, pos: nat, got: seq<Addr>)
    requires |root| <= pos + 1 || root[pos] == END_OF_LIST
    ensures AddrsAfter(got, ReadAddrs(root, base, pos)) ==
            if |root| <= pos || root[pos] != END_OF_LIST then None else Some((got, pos + 1))
  {
    assert got + [] == got;
  }

  lemma WiredListAppend(m: map<nat, Pin>, m': map<nat, Pin>, base: nat, list: seq<Addr>, pins: seq<Pin>,
                        a: Addr, pin: Pin)
    requires WiredList(m, base, list, pins) && Grows(m, m') && PinAt(m', base + a, pin)
    ensures WiredList(m', base, list + [a], pins + [pin])
  {
  }

  lemma GrowsNone(m: map<nat, Pin>)
    ensures Grows(m, m)
  {
  }

  lemma GrowsTwice(m0: map<nat, Pin>, m1: map<nat, Pin>, m2: map<nat, Pin>)
    requires Grows(m0, m1) && Grows(m1, m2)
    ensures Grows(m0, m2)
  {
  }

  lemma AddrsAfterNone(r: Option<(seq<Addr>, nat)>)
    ensures AddrsAfter([], r) == r
  {
    if r.Some? { assert [] + r.value.0 == r.value.0; }
  }

  function ListsAfter(got: seq<seq<Addr>>, r: Option<(seq<seq<Addr>>, nat)>): Option<(seq<seq<Addr>>, nat)> {
    match r
    case None => None
    case Some((lists, end)) => Some((got + lists, end))
  }

  function CodeAfter(got: seq<Part>, r: Option<(seq<Part>, seq<seq<Addr>>, nat)>)
    : Option<(seq<Part>, seq<seq<Addr>>, nat)>
  {
    match r
    case None => None
    case Some((parts, nodes, end)) => Some((got + parts, nodes, end))
  }

  lemma ListsAfterNone(r: Option<(seq<seq<Addr>>, nat)>)
    ensures ListsAfter([], r) == r
  {
    if r.Some? { assert [] + r.value.0 == r.value.0; }
  }

  /** The nodes after those already read: none if the next list is empty, otherwise that one and those after it. */
  lemma NodesAfter(root: seq<byte>, base: nat, pos: nat, got: seq<seq<Addr>>)
    ensures var r := ReadAddrs(root, base, pos);
            ListsAfter(got, ReadNodes(root, base, pos)) ==
            if r.None? then None
            else if r.value.0 == [] then Some((got, r.value.1))
            else ListsAfter(got + [r.value.0], ReadNodes(root, base, r.value.1))
  {
    hide ReadAddrs;
    var r := ReadAddrs(root, base, pos);
    if r.Some? {
      var rest := ReadNodes(root, base, r.value.1);
      assert got + [] == got;
      if r.value.0 != [] && rest.Some? {
        assert got + ([r.value.0] + rest.value.0) == got + [r.value.0] + rest.value.0;
      }
    }
  }

  lemma CodeAfterNone(r: Option<(seq<Part>, seq<seq<Addr>>, nat)>)
    ensures CodeAfter([], r) == r
  {
    if r.Some? { assert [] + r.value.0 == r.value.0; }
  }

  lemma CodeAfterOne(got: seq<Part>, part: Part, r: Option<(seq<Part>, seq<seq<Addr>>, nat)>)
    ensures CodeAfter(got + [part], r) == CodeAfter(got, CodeAfter([part], r))
  {
    if r.Some? { assert got + [part] + r.value.0 == got + ([part] + r.value.0); }
  }

  /** The parts read so far, up to an offset, have been wired, and reading on from there gives the rest. */
  ghost predicate Progress(m: map<nat, Pin>, root: seq<byte>, base: nat, offset: nat, got: seq<Part>, ws: seq<Wired>) {
    && ReadCode(root, base, base + 8) == CodeAfter(got, ReadCode(root, base, base + offset))
    && offset == 8 + |AssembleParts(got)|
    && WiredParts(m, base, base + 8, got, ws)
  }

  lemma ProgressStart(m: map<nat, Pin>, root: seq<byte>, base: nat)
    ensures Progress(m, root, base, 8, [], [])
  {
    CodeAfterNone(ReadCode(root, base, base + 8));
  }

  lemma NothingMore(m: map<nat, Pin>, root: seq<byte>, base: nat, offset: nat, got: seq<Part>, ws: seq<Wired>)
    requires Progress(m, root, base, offset, got, ws)
    requires |root| <= base + offset || (root[base + offset] != NODES && ReadPart(root, base, base + offset).None?)
    ensures ReadCode(root, base, base + 8).None?
  {
  }

  lemma CodePart(root: seq<byte>, base: nat, pos: nat)
    requires pos < |root| && root[pos] != NODES && ReadPart(root, base, pos).Some?
    ensures var (part, next) := ReadPart(root, base, pos).value;
            ReadCode(root, base, pos) == CodeAfter([part], ReadCode(root, base, next))
  {
    hide ReadPart;
  }

  lemma Advance(m: map<nat, Pin>, m': map<nat, Pin>, root: seq<byte>, base: nat, offset: nat, next: nat,
                got: seq<Part>, ws: seq<Wired>, part: Part, w: Wired)
    requires Progress(m, root, base, offset, got, ws) && Grows(m, m')
    requires base + offset < |root| && root[base + offset] != NODES
    requires ReadPart(root, base, base + offset) == Some((part, base + next))
    requires WiredPart(m', base, base + offset, part, w)
    ensures Progress(m', root, base, next, got + [part], ws + [w])
  {
    hide ReadCode, ReadPart, WiredParts, WiredPart, Holds, ValidPart, PartOk, AssembleParts, AssemblePart;
    hide CodeAfter, Grows;
    PartSound(root, base, base + offset);
    WiredPartsGrow(m, m', base, base + 8, got, ws);
    WiredPartsAppend(m', base, base + 8, got, ws, part, w);
    CodePart(root, base, base + offset);
    CodeAfterOne(got, part, ReadCode(root, base, base + next));
  }

  /** The parts and then the nodes of ReadCode's result, wired. */
  ghost predicate WiredCode(m: map<nat, Pin>, base: nat, parts: seq<Part>, nodes: seq<seq<Addr>>, ws: seq<Wired>) {
    && |ws| == |parts| + |nodes|
    && WiredParts(m, base, base + 8, parts, ws[..|parts|]) && WiredNodes(m, base, nodes, ws[|parts|..])
  }

  lemma Finish(m: map<nat, Pin>, m': map<nat, Pin>, root: seq<byte>, base: nat, offset: nat,
               got: seq<Part>, ws: seq<Wired>, nodes: seq<Wired>)
    requires Progress(m, root, base, offset, got, ws) && Grows(m, m')
    requires base + offset < |root| && root[base + offset] == NODES
    ensures ReadNodes(root, base, base + offset + 1).Some? <==> ReadCode(root, base, base + 8).Some?
    ensures ReadNodes(root, base, base + offset + 1).Some? ==>
              var (lists, end) := ReadNodes(root, base, base + offset + 1).value;
              && ReadCode(root, base, base + 8) == Some((got, lists, end))
              && (WiredNodes(m', base, lists, nodes) ==> WiredCode(m', base, got, lists, ws + nodes))
  {
    WiredPartsGrow(m, m', base, base + 8, got, ws);
    hide ReadNodes;
    assert (ws + nodes)[..|got|] == ws && (ws + nodes)[|got|..] == nodes;
    assert got + [] == got;
  }

  class ParsedChip {
    const addrSpace: AddressSpace
    var pins: seq<Pin>
    var parts: seq<Wired>
    var length: nat

    constructor (addrSpace: AddressSpace)
      ensures this.addrSpace == addrSpace && parts == []
    {
      this.addrSpace := addrSpace;
      pins, parts, length := [], [], 0;
    }

    ghost predicate Ready(data: seq<byte>, root: seq<byte>)
      reads addrSpace.shared
    {
      MapOk(addrSpace.shared.pins, root) && addrSpace.offset <= |root| && data == root[addrSpace.offset..]
    }

    /** Reads n pins that the bytecode holds at consecutive offsets. */
    method BytecodePins(data: seq<byte>, offset: nat, n: nat, ghost root: seq<byte>) returns (ok: bool, read: seq<Pin>)
      requires Ready(data, root)
      modifies addrSpace.shared
      ensures Ready(data, root) && Grows(old(addrSpace.shared.pins), addrSpace.shared.pins)
      ensures ok <==> ReadPins(root, addrSpace.offset + offset, n).Some?
      ensures ok ==> |read| == n && WiredPins(addrSpace.shared.pins, addrSpace.offset + offset, read)
    {
      ghost var pos := addrSpace.offset + offset;
      PinsReadable(root, pos, n);
      hide ReadPins, MapOk;
      read := [];
      while |read| < n
        invariant |read| <= n && WiredPins(addrSpace.shared.pins, pos, read)
        invariant forall a | pos <= a < pos + |read| :: PinOk(root, a)
        invariant Ready(data, root) && Grows(old(addrSpace.shared.pins), addrSpace.shared.pins)
      {
        var pin := addrSpace.LookupPin(data, offset + |read|, root);
        if pin.None? {
          assert !PinOk(root, pos + |read|);
          return false, [];
        }
        read := read + [pin.value];
      }
      ok := true;
    }

    /** Reads a list of pin addresses, up to its terminator. */
    method BytecodeAddrList(data: seq<byte>, offset: nat, ghost root: seq<byte>)
      returns (ok: bool, next: nat, read: seq<Pin>)
      requires Ready(data, root)
      modifies addrSpace.shared
      ensures Ready(data, root) && Grows(old(addrSpace.shared.pins), addrSpace.shared.pins)
      ensures ok <==> ReadAddrs(root, addrSpace.offset, addrSpace.offset + offset).Some?
      ensures ok ==> var (list, end) := ReadAddrs(root, addrSpace.offset, addrSpace.offset + offset).value;
                     addrSpace.offset + next == end && WiredList(addrSpace.shared.pins, addrSpace.offset, list, read)
    {
      hide MapOk, PinOk, PinAt, Grows, ReadAddrs, AddrsAfter;
      ghost var base, m0 := addrSpace.offset, addrSpace.shared.pins;
      ghost var got: seq<Addr> := [];
      next, read := offset, [];
      AddrsAfterNone(ReadAddrs(root, base, base + offset));
      GrowsNone(m0);
      assert WiredList(m0, base, got, read);
      while true
        invariant WiredList(addrSpace.shared.pins, base, got, read)
        invariant ReadAddrs(root, base, base + offset) == AddrsAfter(got, ReadAddrs(root, base, base + next))
        invariant Ready(data, root) && Grows(m0, addrSpace.shared.pins)
        decreases |data| - next
      {
        hide WiredList;
        ghost var m1 := addrSpace.shared.pins;
        if |data| <= next + 1 || data[next] == END_OF_LIST { AddrsLast(root, base, base + next, got); }
        if |data| <= next { return false, next, read; }
        assert data[next] == root[base + next];
        if data[next] == END_OF_LIST { return true, next + 1, read; }
        if |data| <= next + 1 { return false, next, read; }
        assert data[next + 1] == root[base + next + 1];
        var a: Addr := data[next] as int * 0x100 + data[next + 1];
        AddrsStep(root, base, base + next, got, a);
        var pin := addrSpace.LookupPin(data, a, root);
        GrowsTwice(m0, m1, addrSpace.shared.pins);
        if pin.None? { return false, next, read; }
        WiredListAppend(m1, addrSpace.shared.pins, base, got, read, a, pin.value);
        read, got, next := read + [pin.value], got + [a], next + 2;
      }
    }

    /** AND, OR, XOR, NOT and flip flop; offset is the position after the opcode. */
    method BytecodeGate(op: byte, data: seq<byte>, offset: nat, ghost root: seq<byte>) returns (ok: bool, next: nat)
      requires Ready(data, root) && IsGate(op) && offset > 0
      modifies this, addrSpace.shared
      ensures Ready(data, root) && Grows(old(addrSpace.shared.pins), addrSpace.shared.pins) && pins == old(pins)
      ensures ok <==> ReadGate(root, addrSpace.offset, addrSpace.offset + offset, op).Some?
      ensures ok ==>
                var (part, end) := ReadGate(root, addrSpace.offset, addrSpace.offset + offset, op).value;
                && addrSpace.offset + next == end
                && |parts| == |old(parts)| + 1 && parts[..|old(parts)|] == old(parts)
                && WiredPart(addrSpace.shared.pins, addrSpace.offset, addrSpace.offset + offset - 1,
                             part, parts[|old(parts)|])
    {
      hide ReadPins, ReadAddrs, MapOk;
      next := offset;
      var inputs;
      ok, inputs := BytecodePins(data, offset, PinCount(op), root);
      if !ok { return; }
      var outs0, outs1;
      OneList(root, addrSpace.offset, addrSpace.offset + offset + PinCount(op));
      TwoLists(root, addrSpace.offset, addrSpace.offset + offset + PinCount(op));
      hide ReadLists;
      ok, next, outs0 := BytecodeAddrList(data, offset + PinCount(op), root);
      if !ok { return; }
      if op == 5 {
        ok, next, outs1 := BytecodeAddrList(data, next, root);
        if !ok { return; }
        parts := parts + [WiredGate(op, inputs, [outs0, outs1])];
      } else {
        parts := parts + [WiredGate(op, inputs, [outs0])];
      }
    }

    /** Propagation: each list but the empty last one is a source pin and its destinations. */
    method Bytecode07(data: seq<byte>, offset: nat, ghost root: seq<byte>) returns (ok: bool, next: nat)
      requires Ready(data, root)
      modifies this, addrSpace.shared
      ensures Ready(data, root) && Grows(old(addrSpace.shared.pins), addrSpace.shared.pins) && pins == old(pins)
      ensures ok <==> ReadNodes(root, addrSpace.offset, addrSpace.offset + offset).Some?
      ensures ok ==>
                var (nodes, end) := ReadNodes(root, addrSpace.offset, addrSpace.offset + offset).value;
                && addrSpace.offset + next == end
                && |parts| == |old(parts)| + |nodes| && parts[..|old(parts)|] == old(parts)
                && WiredNodes(addrSpace.shared.pins, addrSpace.offset, nodes, parts[|old(parts)|..])
    {
      hide ReadAddrs, ReadNodes, ListsAfter, MapOk, PinAt, Grows, WiredNodes;
      ghost var base, n, m0 := addrSpace.offset, |parts|, addrSpace.shared.pins;
      ghost var got: seq<seq<Addr>> := [];
      next := offset;
      ListsAfterNone(ReadNodes(root, base, base + offset));
      GrowsNone(m0);
      NoNodesWired(m0, base);
      ghost var p0 := parts;
      assert parts[n..] == [] && parts[..n] == p0;
      while true
        invariant Ready(data, root) && Grows(m0, addrSpace.shared.pins) && pins == old(pins)
        invariant ReadNodes(root, base, base + offset) == ListsAfter(got, ReadNodes(root, base, base + next))
        invariant |parts| == n + |got| && parts[..n] == p0
        invariant WiredNodes(addrSpace.shared.pins, base, got, parts[n..])
        decreases |root| - next
      {
        var addrs;
        ghost var start := next;
        ghost var before, m1 := parts[n..], addrSpace.shared.pins;
        NodesAfter(root, base, base + start, got);
        ok, next, addrs := BytecodeAddrList(data, next, root);
        GrowsTwice(m0, m1, addrSpace.shared.pins);
        if !ok { return; }
        WiredNodesGrow(m1, addrSpace.shared.pins, base, got, before);
        ghost var list := ReadAddrs(root, base, base + start).value.0;
        if addrs == [] {
          return;
        }
        var node := WiredNode(addrs[0], addrs[1..]);
        assert [addrs[0]] + addrs[1..] == addrs;
        WiredNodesAppend(addrSpace.shared.pins, base, got, before, list, node);
        assert (parts + [node])[..n] == parts[..n] && (parts + [node])[n..] == before + [node];
        parts := parts + [node];
        got := got + [list];
      }
    }

    /** A nested chip, in an address space displaced to its own start. */
    method Bytecode06(data: seq<byte>, offset: nat, ghost root: seq<byte>) returns (ok: bool, next: nat)
      requires Ready(data, root) && 0 < offset <= |data|
      modifies this, addrSpace.shared
      ensures Ready(data, root) && Grows(old(addrSpace.shared.pins), addrSpace.shared.pins) && pins == old(pins)
      ensures ok <==> ReadChip(root, addrSpace.offset + offset).Some?
      ensures ok ==>
                var (c, end) := ReadChip(root, addrSpace.offset + offset).value;
                && addrSpace.offset + next == end
                && |parts| == |old(parts)| + 1 && parts[..|old(parts)|] == old(parts)
                && WiredPart(addrSpace.shared.pins, addrSpace.offset, addrSpace.offset + offset - 1,
                             Nested(c), parts[|old(parts)|])
      decreases |data| - offset, 1
    {
      var space := addrSpace.Offset(offset);
      var chip := new ParsedChip(space);
      assert data[offset..] == root[space.offset..];
      ok := chip.ParseCHP(data[offset..], root);
      next := offset;
      if ok {
        parts := parts + [WiredChip(chip.pins, chip.parts)];
        next := offset + chip.length;
      }
    }

    /** The handler of any bytecode but the closing one. */
    method BytecodePart(op: byte, data: seq<byte>, offset: nat, ghost root: seq<byte>) returns (ok: bool, next: nat)
      requires Ready(data, root) && offset < |data| && data[offset] == op && op != NODES
      modifies this, addrSpace.shared
      ensures Ready(data, root) && Grows(old(addrSpace.shared.pins), addrSpace.shared.pins) && pins == old(pins)
      ensures addrSpace.offset + offset < |root| && root[addrSpace.offset + offset] == op
      ensures ok <==> ReadPart(root, addrSpace.offset, addrSpace.offset + offset).Some?
      ensures ok ==>
                var (part, end) := ReadPart(root, addrSpace.offset, addrSpace.offset + offset).value;
                && addrSpace.offset + next == end
                && |parts| == |old(parts)| + 1 && parts[..|old(parts)|] == old(parts)
                && WiredPart(addrSpace.shared.pins, addrSpace.offset, addrSpace.offset + offset,
                             part, parts[|old(parts)|])
      decreases |data| - offset - 1, 2
    {
      hide ReadGate, WiredPart, MapOk;
      assert data[offset] == root[addrSpace.offset + offset];
      if IsGate(op) {
        ok, next := BytecodeGate(op, data, offset + 1, root);
      } else if op == NESTED {
        ok, next := Bytecode06(data, offset + 1, root);
      } else {
        ok, next := false, offset;
      }
    }

    /** The loop over the bytecodes, up to the closing one. */
    method ParseBytecode(data: seq<byte>, ghost root: seq<byte>) returns (ok: bool)
      requires Ready(data, root) && parts == []
      modifies this, addrSpace.shared
      ensures Ready(data, root) && Grows(old(addrSpace.shared.pins), addrSpace.shared.pins) && pins == old(pins)
      ensures ok <==> ReadCode(root, addrSpace.offset, addrSpace.offset + 8).Some?
      ensures ok ==>
                var (got, nodes, end) := ReadCode(root, addrSpace.offset, addrSpace.offset + 8).value;
                && addrSpace.offset + length == end
                && WiredCode(addrSpace.shared.pins, addrSpace.offset, got, nodes, parts)
      decreases |data| - 8, 3
    {
      hide MapOk, ReadNodes, ReadCode, ReadPart, Progress, WiredPart, WiredCode, WiredNodes;
      ghost var base := addrSpace.offset;
      ghost var got: seq<Part> := [];
      var offset := 8;
      ProgressStart(addrSpace.shared.pins, root, base);
      while true
        invariant Ready(data, root) && Grows(old(addrSpace.shared.pins), addrSpace.shared.pins) && pins == old(pins)
        invariant offset >= 8 && Progress(addrSpace.shared.pins, root, base, offset, got, parts)
        decreases |data| - offset
      {
        ghost var m, before, start := addrSpace.shared.pins, parts, offset;
        if |data| <= offset {
          NothingMore(m, root, base, offset, got, before);
          return false;
        }
        assert data[offset] == root[base + offset];
        var op := data[offset];
        if op == NODES {
          ok, offset := Bytecode07(data, offset + 1, root);
          length := offset;
          Finish(m, addrSpace.shared.pins, root, base, start, got, before, if ok then parts[|before|..] else []);
          assert ok ==> parts == before + parts[|before|..];
          return;
        }
        ok, offset := BytecodePart(op, data, offset, root);
        if !ok {
          NothingMore(m, root, base, start, got, before);
          return;
        }
        ghost var part := ReadPart(root, base, base + start).value.0;
        Advance(m, addrSpace.shared.pins, root, base, start, offset, got, before, part, parts[|before|]);
        assert parts == before + [parts[|before|]];
        got := got + [part];
      }
    }

    /** Electrical data: eight pins, then the bytecode. */
    method ParseCHP(data: seq<byte>, ghost root: seq<byte>) returns (ok: bool)
      requires Ready(data, root) && parts == []
      modifies this, addrSpace.shared
      ensures Ready(data, root) && Grows(old(addrSpace.shared.pins), addrSpace.shared.pins)
      ensures ok <==> ReadChip(root, addrSpace.offset).Some?
      ensures ok ==>
                var (c, end) := ReadChip(root, addrSpace.offset).value;
                && addrSpace.offset + length == end
                && IsWiring(addrSpace.shared.pins, addrSpace.offset, c, pins, parts)
      decreases |data|, 0
    {
      hide MapOk, ReadPins, ReadCode;
      ok, pins := BytecodePins(data, 0, 8, root);
      if !ok { return; }
      ok := ParseBytecode(data, root);
    }
  }
}
