/** Packet framing on the serial line of the energy monitor. */
module Ted {
  import opened Basics

  const ESCAPE: byte := 0x10
  const PKT_BEGIN: byte := 0x04
  const PKT_END: byte := 0x03
  const PACKET_LENGTH := 278

  /** Whether an escape byte is pending, and the packet being received, if any. */
  datatype Receiver = Receiver(escape: bool, buffer: Option<seq<byte>>)

  function Collect(buffer: Option<seq<byte>>, b: byte): Option<seq<byte>> {
    match buffer
    case None => None
    case Some(data) => Some(data + [b])
  }

  /** The receiver after some bytes, and the packets it got; failed is a protocol error, which stops it. */
  datatype Reception = Reception(receiver: Receiver, packets: seq<seq<byte>>, failed: bool)

  function Step(r: Receiver, b: byte): Reception {
    if r.escape then
      var r' := r.(escape := false);
      if b == ESCAPE then Reception(r'.(buffer := Collect(r.buffer, ESCAPE)), [], false)
      else if b == PKT_BEGIN then Reception(r'.(buffer := Some([])), [], false)
      else if b == PKT_END then
        if r.buffer.None? then Reception(r', [], false)
        else if |r.buffer.value| != PACKET_LENGTH then Reception(r', [], true)
        else Reception(r'.(buffer := None), [r.buffer.value], false)
      else Reception(r', [], true)
    else if b == ESCAPE then Reception(r.(escape := true), [], false)
    else Reception(r.(buffer := Collect(r.buffer, b)), [], false)
  }

  /** What more bytes add to a reception. */
  function Then(first: Reception, second: Reception): Reception {
    Reception(second.receiver, first.packets + second.packets, second.failed)
  }

  function Receive(r: Receiver, raw: seq<byte>): Reception
    decreases raw
  {
    if raw == [] then Reception(r, [], false)
    else
      var one := Step(r, raw[0]);
      if one.failed then one else Then(one, Receive(one.receiver, raw[1..]))
  }

  /** Cutting a stream anywhere and carrying the receiver over gives the same packets in the same order. */
  lemma {:induction false} Chunks(r: Receiver, a: seq<byte>, b: seq<byte>)
    ensures var first := Receive(r, a);
            Receive(r, a + b) == if first.failed then first else Then(first, Receive(first.receiver, b))
    decreases a
  {
    hide Step;
    if a == [] {
      assert a + b == b;
      assert [] + Receive(r, b).packets == Receive(r, b).packets;
    } else {
      var one := Step(r, a[0]);
      assert (a + b)[1..] == a[1..] + b;
      if !one.failed {
        Chunks(one.receiver, a[1..], b);
        var mid := Receive(one.receiver, a[1..]);
        var end := Receive(mid.receiver, b);
        assert one.packets + (mid.packets + end.packets) == one.packets + mid.packets + end.packets;
      }
    }
  }

  /** Every byte in every state: 10 escapes; 10 10 is a 10, 10 04 begins a packet, 10 03 ends one of 278 bytes. */
  lemma OneByte(r: Receiver, b: byte)
    ensures var d := Receive(r, [b]);
            if !r.escape then
              d == if b == 0x10 then Reception(Receiver(true, r.buffer), [], false)
                   else if r.buffer.None? then Reception(r, [], false)
                   else Reception(Receiver(false, Some(r.buffer.value + [b])), [], false)
            else if b == 0x04 then d == Reception(Receiver(false, Some([])), [], false)
            else if b == 0x03 && r.buffer.Some? && |r.buffer.value| == 278 then
              d == Reception(Receiver(false, None), [r.buffer.value], false)
            else if b == 0x03 && r.buffer.Some? then d.failed && d.packets == []
            else if b == 0x03 then d == Reception(Receiver(false, None), [], false)
            else if b == 0x10 && r.buffer.Some? then
              d == Reception(Receiver(false, Some(r.buffer.value + [0x10])), [], false)
            else if b == 0x10 then d == Reception(Receiver(false, None), [], false)
            else d.failed && d.packets == []
  {
    assert [b][1..] == [];
    var one := Step(r, b);
    assert one.packets + [] == one.packets;
    assert Receive(one.receiver, []) == Reception(one.receiver, [], false);
  }

  lemma AfterOne(r: Receiver, b: byte, rest: seq<byte>)
    ensures var d := Receive(r, [b]);
            && (d.failed ==> Receive(r, [b] + rest) == d)
            && (!d.failed && d.packets == [] ==> Receive(r, [b] + rest) == Receive(d.receiver, rest))
  {
    Chunks(r, [b], rest);
    var end := Receive(Receive(r, [b]).receiver, rest);
    hide Receive;
    assert [] + end.packets == end.packets;
  }

  /** An end mark with no packet under way, as on a line joined in mid-packet, is ignored. */
  lemma StrayEnd(r: Receiver, rest: seq<byte>)
    requires r.buffer.None?
    ensures !r.escape ==> Receive(r, [0x10, 0x03] + rest) == Receive(r, rest)
    ensures r.escape ==> Receive(r, [0x03] + rest) == Receive(Receiver(false, None), rest)
  {
    var pending := Receiver(true, None);
    AfterOne(pending, 0x03, rest);
    OneByte(pending, 0x03);
    assert [0x10, 0x03] + rest == [0x10] + ([0x03] + rest);
    AfterOne(r, 0x10, [0x03] + rest);
    OneByte(r, 0x10);
    hide Receive;
  }

  /** After an escape byte any other byte than those three is an error, and what follows it is not looked at. */
  lemma UnknownEscape(r: Receiver, b: byte, rest: seq<byte>)
    requires b != 0x10 && b != 0x04 && b != 0x03
    ensures var raw := if r.escape then [b] + rest else [0x10, b] + rest;
            Receive(r, raw).failed && Receive(r, raw).packets == []
  {
    var pending := Receiver(true, r.buffer);
    AfterOne(pending, b, rest);
    OneByte(pending, b);
    assert [0x10, b] + rest == [0x10] + ([b] + rest);
    AfterOne(r, 0x10, [b] + rest);
    OneByte(r, 0x10);
    hide Receive;
  }

  // ---------------------------------------------------------------- sending

  /** Every escape byte is sent twice. */
  function Stuff(data: seq<byte>): seq<byte> {
    if data == [] then []
    else if data[0] == ESCAPE then [ESCAPE, ESCAPE] + Stuff(data[1..])
    else [data[0]] + Stuff(data[1..])
  }

  function Frame(payload: seq<byte>): seq<byte> {
    [ESCAPE, PKT_BEGIN] + Stuff(payload) + [ESCAPE, PKT_END]
  }

  /** What is on the line: stray data between packets, and packets. */
  datatype Item = Noise(data: seq<byte>) | Packet(payload: seq<byte>)

  function Send(items: seq<Item>): seq<byte> {
    if items == [] then []
    else (match items[0] case Noise(data) => Stuff(data) case Packet(p) => Frame(p)) + Send(items[1..])
  }

  function Payloads(items: seq<Item>): seq<seq<byte>> {
    if items == [] then []
    else (match items[0] case Noise(_) => [] case Packet(p) => [p]) + Payloads(items[1..])
  }

  lemma {:induction false} NoEscapeNoStuffing(data: seq<byte>)
    requires ESCAPE !in data
    ensures Stuff(data) == data
  {
    if data != [] { NoEscapeNoStuffing(data[1..]); }
  }

  lemma DecodeOne(r: Receiver, b: byte, rest: seq<byte>)
    requires !Step(r, b).failed && Step(r, b).packets == []
    ensures Receive(r, [b] + rest) == Receive(Step(r, b).receiver, rest)
  {
    hide Step;
    assert ([b] + rest)[1..] == rest;
    var d := Receive(Step(r, b).receiver, rest);
    assert [] + d.packets == d.packets;
  }

  lemma DecodeTwo(r: Receiver, a: byte, b: byte, rest: seq<byte>)
    requires !Step(r, a).failed && Step(r, a).packets == []
    requires var r1 := Step(r, a).receiver; !Step(r1, b).failed && Step(r1, b).packets == []
    ensures Receive(r, [a, b] + rest) == Receive(Step(Step(r, a).receiver, b).receiver, rest)
  {
    hide Step, Receive;
    assert [a, b] + rest == [a] + ([b] + rest);
    DecodeOne(r, a, [b] + rest);
    DecodeOne(Step(r, a).receiver, b, rest);
  }

  /** Stuffed data only ever extends the packet being received, or is dropped if there is none. */
  lemma {:induction false} DecodeStuffed(r: Receiver, data: seq<byte>)
    requires !r.escape
    ensures Receive(r, Stuff(data))
            == Reception(Receiver(false, if r.buffer.None? then None else Some(r.buffer.value + data)), [], false)
    decreases data
  {
    if data == [] {
      assert r.buffer.Some? ==> r.buffer.value + [] == r.buffer.value;
    } else {
      var r' := Receiver(false, Collect(r.buffer, data[0]));
      DecodeStuffed(r', data[1..]);
      if r.buffer.Some? { assert r.buffer.value + [data[0]] + data[1..] == r.buffer.value + data; }
      if data[0] == ESCAPE {
        DecodeTwo(r, ESCAPE, ESCAPE, Stuff(data[1..]));
      } else {
        DecodeOne(r, data[0], Stuff(data[1..]));
      }
    }
  }

  /** A whole frame gives its payload, whatever was being received before; a payload of another length is an error. */
  lemma DecodeFrame(r: Receiver, payload: seq<byte>)
    requires !r.escape
    ensures |payload| == 278 ==>
              Receive(r, Frame(payload)) == Reception(Receiver(false, None), [payload], false)
    ensures |payload| != 278 ==> Receive(r, Frame(payload)).failed
  {
    var body, end := Stuff(payload), [ESCAPE, PKT_END];
    assert Frame(payload) == [ESCAPE, PKT_BEGIN] + (body + end);
    DecodeTwo(r, ESCAPE, PKT_BEGIN, body + end);
    var begun := Receiver(false, Some([]));
    DecodeStuffed(begun, payload);
    Chunks(begun, body, end);
    assert [] + payload == payload;
    var full := Receiver(false, Some(payload));
    assert end == [ESCAPE] + [PKT_END];
    DecodeOne(full, ESCAPE, [PKT_END]);
    assert [PKT_END][1..] == [];
  }

  /** On a line joined in mid-packet, the rest of that packet is dropped with its end mark. */
  lemma JoinedMidPacket(tail: seq<byte>, rest: seq<byte>)
    ensures Receive(Receiver(false, None), Stuff(tail) + [0x10, 0x03] + rest) == Receive(Receiver(false, None), rest)
  {
    var r := Receiver(false, None);
    DecodeStuffed(r, tail);
    assert Stuff(tail) + [0x10, 0x03] + rest == Stuff(tail) + ([0x10, 0x03] + rest);
    Chunks(r, Stuff(tail), [0x10, 0x03] + rest);
    StrayEnd(r, rest);
    var end := Receive(r, rest);
    hide Receive, Stuff;
    assert [] + end.packets == end.packets;
  }

  /**
   * A stream of packets and stuffed noise is received as exactly its payloads, in order, if each has the
   * right length, and otherwise fails.
   */
  lemma {:induction false} ReceivesPayloads(r: Receiver, items: seq<Item>)
    requires !r.escape
    ensures var d := Receive(r, Send(items));
            && (d.failed <==> exists i :: 0 <= i < |items| && items[i].Packet? && |items[i].payload| != 278)
            && (!d.failed ==> d.packets == Payloads(items) && !d.receiver.escape)
    decreases items
  {
    if items != [] {
      var item, rest := items[0], items[1..];
      var sent := match item case Noise(data) => Stuff(data) case Packet(p) => Frame(p);
      if item.Noise? { DecodeStuffed(r, item.data); } else { DecodeFrame(r, item.payload); }
      Chunks(r, sent, Send(rest));
      var d := Receive(r, sent);
      if !d.failed {
        ReceivesPayloads(d.receiver, rest);
      }
    }
  }

  /** The line with noise as it comes, not stuffed. */
  function Line(items: seq<Item>): seq<byte> {
    if items == [] then []
    else (match items[0] case Noise(data) => data case Packet(p) => Frame(p)) + Line(items[1..])
  }

  ghost predicate EscapeFree(items: seq<Item>) {
    forall i | 0 <= i < |items| && items[i].Noise? :: ESCAPE !in items[i].data
  }

  lemma {:induction false} LineIsSend(items: seq<Item>)
    requires EscapeFree(items)
    ensures Line(items) == Send(items)
    decreases items
  {
    if items != [] {
      if items[0].Noise? { NoEscapeNoStuffing(items[0].data); }
      LineIsSend(items[1..]);
    }
  }

  /** Packets among raw noise without escape bytes are received in the same way. */
  lemma ReceivesAmongNoise(r: Receiver, items: seq<Item>)
    requires !r.escape && EscapeFree(items)
    ensures var d := Receive(r, Line(items));
            && (d.failed <==> exists i :: 0 <= i < |items| && items[i].Packet? && |items[i].payload| != 278)
            && (!d.failed ==> d.packets == Payloads(items) && !d.receiver.escape)
  {
    LineIsSend(items);
    ReceivesPayloads(r, items);
  }

  // ---------------------------------------------------------------- the decoder object

  lemma ReceiveNext(r: Receiver, packets: seq<seq<byte>>, raw: seq<byte>, i: nat)
    requires i < |raw|
    ensures var one := Step(r, raw[i]);
            Then(Reception(r, packets, false), Receive(r, raw[i..])) ==
            if one.failed then Reception(one.receiver, packets + one.packets, true)
            else Then(Reception(one.receiver, packets + one.packets, false), Receive(one.receiver, raw[i + 1..]))
  {
    hide Step;
    var one := Step(r, raw[i]);
    assert raw[i..][1..] == raw[i + 1..];
    var rest := Receive(one.receiver, raw[i + 1..]);
    assert packets + (one.packets + rest.packets) == packets + one.packets + rest.packets;
  }

  class TED {
    var escapeFlag: bool
    var packetBuffer: Option<seq<byte>>

    constructor ()
      ensures Contents() == Receiver(false, None)
    {
      escapeFlag, packetBuffer := false, None;
    }

    ghost function Contents(): Receiver
      reads this
    {
      Receiver(escapeFlag, packetBuffer)
    }

    /** Decodes some bytes. A failure is the source's exception, which loses the packets of this call. */
    method Decode(raw: seq<byte>) returns (packets: seq<seq<byte>>, failed: bool)
      modifies this
      ensures Reception(Contents(), packets, failed) == Receive(old(Contents()), raw)
    {
      packets, failed := [], false;
      assert raw[0..] == raw && [] + Receive(Contents(), raw).packets == Receive(Contents(), raw).packets;
      for i := 0 to |raw|
        invariant !failed
        invariant Then(Reception(Contents(), packets, false), Receive(Contents(), raw[i..]))
                  == Receive(old(Contents()), raw)
      {
        hide Receive;
        ReceiveNext(Contents(), packets, raw, i);
        var byte := raw[i];
        if escapeFlag {
          escapeFlag := false;
          if byte == ESCAPE {
            if packetBuffer.Some? { packetBuffer := Some(packetBuffer.value + [ESCAPE]); }
          } else if byte == PKT_BEGIN {
            packetBuffer := Some([]);
          } else if byte == PKT_END {
            if packetBuffer.Some? {
              if |packetBuffer.value| != PACKET_LENGTH {
                failed := true;
                assert packets + [] == packets;
                return;
              }
              packets := packets + [packetBuffer.value];
              packetBuffer := None;
            }
          } else {
            failed := true;
            assert packets + [] == packets;
            return;
          }
        } else if byte == ESCAPE {
          escapeFlag := true;
        } else if packetBuffer.Some? {
          packetBuffer := Some(packetBuffer.value + [byte]);
        }
        assert packets + [] == packets;
      }
      assert raw[|raw|..] == [] && packets + [] == packets;
    }
  }
}
