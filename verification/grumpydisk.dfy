/** Reading a failing disk: packetised reads over USB, and recursive bisection around the bad spots. */
module Grumpydisk {
  import opened Basics

  const PACKET := 512
  const READ_10: byte := 0x28
  const SIGNATURE := 0x53425355
  const THRESHOLD := 64

  // ---------------------------------------------------------------- one command

  /**
   * How the device answers a command: the bytes of the wrapper it took, the data packets in order, and
   * the status wrapper. A negative size or None is a failed transfer.
   */
  datatype Exchange = Exchange(sent: int, packets: seq<Option<seq<byte>>>, status: Option<seq<byte>>)

  function LittleEndian32(bs: seq<byte>): nat
    requires |bs| == 4
  {
    bs[0] + bs[1] as int * 0x100 + bs[2] as int * 0x1_0000 + bs[3] as int * 0x100_0000
  }

  /** A complete status wrapper with the right signature and tag, and status zero. */
  predicate Acknowledges(status: Option<seq<byte>>, tag: nat) {
    && status.Some? && |status.value| == 13
    && LittleEndian32(status.value[..4]) == SIGNATURE
    && LittleEndian32(status.value[4..8]) == tag
    && status.value[12] == 0
  }

  /** The data of packets that fill length exactly: full ones, and a last one that ends it. */
  function Received(packets: seq<Option<seq<byte>>>, length: nat): (r: Option<seq<byte>>)
    ensures r.Some? ==> |r.value| == length
    decreases length
  {
    if packets == [] || packets[0].None? then None
    else
      var data := packets[0].value;
      if |data| == length && |data| <= PACKET then Some(data)
      else if |data| != PACKET || length <= PACKET then None
      else
        match Received(packets[1..], length - PACKET)
        case None => None
        case Some(rest) => Some(data + rest)
  }

  predicate Succeeds(ex: Exchange, tag: nat, length: nat) {
    ex.sent == 31 && Received(ex.packets, length).Some? && Acknowledges(ex.status, tag)
  }

  function BigEndian32(n: nat): (bs: seq<byte>)
    requires n < 0x1_0000_0000
    ensures |bs| == 4
  {
    [n / 0x100_0000, n / 0x1_0000 % 0x100, n / 0x100 % 0x100, n % 0x100]
  }

  function FromBigEndian32(bs: seq<byte>): nat
    requires |bs| == 4
  {
    ((bs[0] as int * 0x100 + bs[1]) * 0x100 + bs[2]) * 0x100 + bs[3]
  }

  lemma BigEndianRoundTrip(n: nat)
    requires n < 0x1_0000_0000
    ensures FromBigEndian32(BigEndian32(n)) == n
  {
    var q1, q2 := n / 0x100, n / 0x1_0000;
    assert n == q1 * 0x100 + n % 0x100;
    assert q2 == q1 / 0x100 && q1 == q2 * 0x100 + q1 % 0x100;
    assert n / 0x100_0000 == q2 / 0x100 && q2 == q2 / 0x100 * 0x100 + q2 % 0x100;
  }

  /** The command block; the count field has only 16 bits. */
  function ReadCommand(sector: nat, count: nat): seq<byte>
    requires sector < 0x1_0000_0000
  {
    [READ_10, 0] + BigEndian32(sector) + [0, count / 0x100 % 0x100, count % 0x100, 0]
  }

  /** What a command block asks for, as the device reads it. */
  function Requested(cb: seq<byte>): (nat, nat)
    requires |cb| == 10
  {
    (FromBigEndian32(cb[2..6]), cb[7] as int * 0x100 + cb[8])
  }

  lemma LowBytes(n: nat)
    ensures n / 0x100 % 0x100 * 0x100 + n % 0x100 == n % 0x1_0000
  {
    var q := n / 0x100;
    assert n == q / 0x100 * 0x1_0000 + (q % 0x100 * 0x100 + n % 0x100);
  }

  /** The command block of a READ(10), byte by byte, and what the device makes of it. */
  lemma CommandAsks(sector: nat, count: nat)
    requires sector < 0x1_0000_0000
    ensures var cb := ReadCommand(sector, count);
            && |cb| == 10 && cb[0] == 0x28 && cb[1] == cb[6] == cb[9] == 0
            && cb[2] as int * 0x100_0000 + cb[3] as int * 0x1_0000 + cb[4] as int * 0x100 + cb[5] == sector
            && cb[7] as int * 0x100 + cb[8] == count % 0x1_0000
            && Requested(cb) == (sector, count % 0x1_0000)
  {
    var cb := ReadCommand(sector, count);
    assert cb[2..6] == BigEndian32(sector);
    BigEndianRoundTrip(sector);
    assert cb[2] as int * 0x100_0000 + cb[3] as int * 0x1_0000 + cb[4] as int * 0x100 + cb[5]
        == FromBigEndian32(cb[2..6]);
    hide FromBigEndian32, BigEndian32;
    assert cb[7] == count / 0x100 % 0x100 && cb[8] == count % 0x100;
    LowBytes(count);
  }

  // ---------------------------------------------------------------- an exchange, byte by byte

  /** A status wrapper: the characters USBS, the tag with its lowest byte first, and status zero. */
  ghost predicate StatusBytes(bs: seq<byte>, tag: nat) {
    && |bs| == 13 && bs[0] == 0x55 && bs[1] == 0x53 && bs[2] == 0x42 && bs[3] == 0x53
    && bs[4] + 0x100 * bs[5] as int + 0x1_0000 * bs[6] as int + 0x100_0000 * bs[7] as int == tag && bs[12] == 0
  }

  lemma AcknowledgesBytes(status: Option<seq<byte>>, tag: nat)
    ensures Acknowledges(status, tag) <==> status.Some? && StatusBytes(status.value, tag)
  {
  }

  /** The position of the packet that ends a transfer of the length given. */
  ghost function LastPacket(length: nat): (last: nat)
    ensures 512 * last <= length
  {
    if length == 0 then 0 else (length - 1) / 512
  }

  /** The packets up to the last have 512 bytes each, and the last has the rest. */
  ghost predicate PacketsFit(packets: seq<Option<seq<byte>>>, length: nat) {
    var last := LastPacket(length);
    && last < |packets| && (forall i | 0 <= i < last :: packets[i].Some? && |packets[i].value| == 512)
    && packets[last].Some? && |packets[last].value| == length - 512 * last
  }

  /** The i-th 512 bytes, or as many as there are. */
  ghost function Chunk(data: seq<byte>, i: nat): seq<byte>
    requires 512 * i <= |data|
  {
    if 512 * (i + 1) <= |data| then data[512 * i..512 * (i + 1)] else data[512 * i..]
  }

  /** The data is what the packets carry, one after the other. */
  ghost predicate PacketsHold(packets: seq<Option<seq<byte>>>, data: seq<byte>) {
    var last := LastPacket(|data|);
    last < |packets| && forall i | 0 <= i <= last :: packets[i] == Some(Chunk(data, i))
  }

  lemma LastPacketIs(length: nat)
    ensures length <= 512 ==> LastPacket(length) == 0
    ensures length > 512 ==>
              var last := LastPacket(length);
              512 <= 512 * last < length && LastPacket(length - 512) == last - 1
  {
  }

  lemma ChunkOfRest(data: seq<byte>, i: nat)
    requires 0 < i && 512 * i <= |data|
    ensures Chunk(data, i) == Chunk(data[512..], i - 1)
  {
  }

  lemma {:induction false} ReceivedFits(packets: seq<Option<seq<byte>>>, length: nat)
    ensures Received(packets, length).Some? <==> PacketsFit(packets, length)
    decreases length
  {
    LastPacketIs(length);
    hide LastPacket;
    if length > 512 && packets != [] {
      var rest, last := packets[1..], LastPacket(length);
      ReceivedFits(rest, length - 512);
      if PacketsFit(rest, length - 512) && packets[0].Some? && |packets[0].value| == 512 {
        forall i | 0 <= i < last ensures packets[i].Some? && |packets[i].value| == 512 {
          if i > 0 { assert packets[i] == rest[i - 1]; }
        }
      }
      if PacketsFit(packets, length) {
        forall i | 0 <= i < last - 1 ensures rest[i].Some? && |rest[i].value| == 512 {
          assert rest[i] == packets[i + 1];
        }
      }
    }
  }

  lemma ReceivedOne(packets: seq<Option<seq<byte>>>, length: nat)
    requires Received(packets, length).Some?
    ensures var data := Received(packets, length).value;
            && packets != [] && packets[0] == Some(Chunk(data, 0))
            && (length > 512 ==> Received(packets[1..], length - 512) == Some(data[512..]))
  {
    var data, first := Received(packets, length).value, packets[0].value;
    assert data[0..] == data;
    if length > 512 {
      var rest := Received(packets[1..], length - 512).value;
      assert data == first + rest && |first| == 512;
      assert data[0..512] == first && data[512..] == rest;
    } else if length == 512 {
      assert data[0..512] == data;
    }
  }

  lemma {:induction false} ReceivedHolds(packets: seq<Option<seq<byte>>>, length: nat)
    requires Received(packets, length).Some?
    ensures PacketsHold(packets, Received(packets, length).value)
    decreases length
  {
    var data, last := Received(packets, length).value, LastPacket(length);
    LastPacketIs(length);
    ReceivedOne(packets, length);
    hide LastPacket, Received, Chunk;
    if length > 512 {
      ReceivedHolds(packets[1..], length - 512);
      forall i | 0 <= i <= last ensures packets[i] == Some(Chunk(data, i)) {
        if i > 0 {
          assert packets[i] == packets[1..][i - 1];
          ChunkOfRest(data, i);
        }
      }
    }
  }

  /** A read is successful exactly if the device took the wrapper, the packets fit, and the status is good. */
  lemma SucceedsIff(ex: Exchange, tag: nat, length: nat)
    ensures Succeeds(ex, tag, length) <==>
              && ex.sent == 31 && PacketsFit(ex.packets, length)
              && ex.status.Some? && StatusBytes(ex.status.value, tag)
  {
    AcknowledgesBytes(ex.status, tag);
    ReceivedFits(ex.packets, length);
    hide Acknowledges, StatusBytes, Received, PacketsFit;
  }

  // ---------------------------------------------------------------- the disk

  /**
   * The disk behind the wire: its sectors, and how it answers the n-th wrapper it is given, from the
   * command block and the transfer length in it.
   */
  datatype Disk = Disk(sectorSize: nat, sectors: nat -> seq<byte>, answer: (nat, seq<byte>, nat) -> Exchange)

  /** The tag of the n-th wrapper. */
  function Tag(n: nat): nat {
    (12346 + n) % 0x1_0000_0000
  }

  lemma NextTag(n: nat)
    ensures ((12345 + n) % 0x1_0000_0000 + 1) % 0x1_0000_0000 == Tag(n) == (12345 + (n + 1)) % 0x1_0000_0000
  {
  }

  /** The size of n sectors. */
  function Bytes(disk: Disk, n: nat): nat {
    n * disk.sectorSize
  }

  lemma BytesAdd(disk: Disk, a: nat, b: nat)
    ensures Bytes(disk, a + b) == Bytes(disk, a) + Bytes(disk, b)
  {
  }

  function Content(disk: Disk, sector: nat, count: nat): seq<byte> {
    if count == 0 then [] else Content(disk, sector, count - 1) + disk.sectors(sector + count - 1)
  }

  /** The disk may fail in any way and at any time, but data it acknowledges is what was asked for. */
  ghost predicate Honest(disk: Disk) {
    && (forall s :: |disk.sectors(s)| == disk.sectorSize)
    && forall n, cb, tag, length | |cb| == 10 && Succeeds(disk.answer(n, cb, length), tag, length) ::
         Received(disk.answer(n, cb, length).packets, length).value == Content(disk, Requested(cb).0, Requested(cb).1)
  }

  /** The n-th command, if it asks for these sectors, succeeds. */
  ghost predicate Delivers(disk: Disk, n: nat, sector: nat, count: nat)
    requires sector < 0x1_0000_0000
  {
    Succeeds(disk.answer(n, ReadCommand(sector, count), Bytes(disk, count)), Tag(n), Bytes(disk, count))
  }

  lemma {:induction false} ContentLength(disk: Disk, sector: nat, count: nat)
    requires Honest(disk)
    ensures |Content(disk, sector, count)| == Bytes(disk, count)
  {
    if count > 0 {
      ContentLength(disk, sector, count - 1);
      BytesAdd(disk, count - 1, 1);
    }
  }

  /** A stretch of sectors that was read, or given up. */
  datatype Leaf = Leaf(sector: nat, count: nat, good: bool)

  /** The leaves cover count sectors from sector on, in order, without gap or overlap. */
  ghost predicate Tiles(leaves: seq<Leaf>, sector: nat, count: nat) {
    if leaves == [] then count == 0
    else
      && leaves[0].sector == sector && leaves[0].count <= count
      && Tiles(leaves[1..], sector + leaves[0].count, count - leaves[0].count)
  }

  lemma {:induction false} TilesAppend(a: seq<Leaf>, b: seq<Leaf>, sector: nat, m: nat, n: nat)
    requires Tiles(a, sector, m) && Tiles(b, sector + m, n)
    ensures Tiles(a + b, sector, m + n)
  {
    if a == [] {
      assert a + b == b;
    } else {
      TilesAppend(a[1..], b, sector + a[0].count, m - a[0].count, n);
      assert (a + b)[1..] == a[1..] + b;
    }
  }

  /** A leaf is good, or given up, as a command for just its sectors went that was given from lo on and before hi. */
  ghost predicate Tried(disk: Disk, leaf: Leaf, lo: nat, hi: nat) {
    leaf.sector < 0x1_0000_0000 && exists n | lo <= n < hi :: Delivers(disk, n, leaf.sector, leaf.count) == leaf.good
  }

  /** Every leaf was tried, and only small ones have been given up. */
  ghost predicate AllTried(disk: Disk, leaves: seq<Leaf>, lo: nat, hi: nat) {
    forall l | l in leaves :: Tried(disk, l, lo, hi) && (l.good || l.count <= 64)
  }

  lemma TriedAppend(disk: Disk, a: seq<Leaf>, b: seq<Leaf>, lo: nat, mid: nat, end: nat, hi: nat)
    requires lo <= mid <= end <= hi && AllTried(disk, a, mid, end) && AllTried(disk, b, end, hi)
    ensures AllTried(disk, a + b, lo, hi)
  {
    hide Delivers;
    forall l | l in a + b ensures Tried(disk, l, lo, hi) && (l.good || l.count <= 64) {
      if l in a {
        var n :| mid <= n < end && Delivers(disk, n, l.sector, l.count) == l.good;
        assert lo <= n < hi;
      } else {
        var n :| end <= n < hi && Delivers(disk, n, l.sector, l.count) == l.good;
        assert lo <= n < hi;
      }
    }
  }

  /**
   * The recovery of a range from the n-th command on: its leaves, and the number of the next command. A
   * range of more than 64 sectors that cannot be read is halved, and the lower half comes first.
   */
  ghost function Recovery(disk: Disk, n: nat, sector: nat, count: nat): (r: (seq<Leaf>, nat))
    requires sector + count <= 0x1_0000_0000 && sector < 0x1_0000_0000
    decreases count
  {
    var good := Delivers(disk, n, sector, count);
    if good || count <= 64 then ([Leaf(sector, count, good)], n + 1)
    else
      var lower := Recovery(disk, n + 1, sector, count / 2);
      var upper := Recovery(disk, lower.1, sector + count / 2, count - count / 2);
      (lower.0 + upper.0, upper.1)
  }

  lemma DeliversIs(disk: Disk, n: nat, sector: nat, count: nat)
    requires sector < 0x1_0000_0000
    ensures Delivers(disk, n, sector, count) ==
            Succeeds(disk.answer(n, ReadCommand(sector, count), Bytes(disk, count)), Tag(n), Bytes(disk, count))
  {
  }

  /** Both halves are in range, and together they have the size of the whole. */
  lemma HalvesFit(disk: Disk, sector: nat, count: nat, half: nat, rest: nat)
    requires count > 64 && sector + count <= 0x1_0000_0000 && half == count / 2 && rest == count - half
    ensures half > 0 && rest > 0 && half + rest == count && sector + half + rest <= 0x1_0000_0000
    ensures Bytes(disk, half) + Bytes(disk, rest) == Bytes(disk, count)
  {
    BytesAdd(disk, half, rest);
  }

  /** These are the leaves of two stretches, one after the other, and the number of the command after both. */
  ghost predicate Recovered(disk: Disk, n: nat, sector: nat, half: nat, rest: nat, leaves: seq<Leaf>, end: nat)
    requires sector + half + rest <= 0x1_0000_0000 && rest > 0
  {
    var lower := Recovery(disk, n, sector, half);
    var upper := Recovery(disk, lower.1, sector + half, rest);
    leaves == lower.0 + upper.0 && end == upper.1
  }

  /** part holds the content of each good leaf at that leaf's place. */
  ghost predicate Restores(disk: Disk, part: seq<byte>, leaves: seq<Leaf>) {
    leaves != [] ==>
      var n := Bytes(disk, leaves[0].count);
      && n <= |part|
      && (leaves[0].good ==> part[..n] == Content(disk, leaves[0].sector, leaves[0].count))
      && Restores(disk, part[n..], leaves[1..])
  }

  lemma {:induction false} RestoresAppend(disk: Disk, p: seq<byte>, q: seq<byte>, a: seq<Leaf>, b: seq<Leaf>,
                                          sector: nat, count: nat)
    requires Tiles(a, sector, count) && |p| == Bytes(disk, count)
    requires Restores(disk, p, a) && Restores(disk, q, b)
    ensures Restores(disk, p + q, a + b)
  {
    if a == [] {
      assert p + q == q && a + b == b;
    } else {
      var n := Bytes(disk, a[0].count);
      BytesAdd(disk, a[0].count, count - a[0].count);
      RestoresAppend(disk, p[n..], q, a[1..], b, sector + a[0].count, count - a[0].count);
      assert (p + q)[..n] == p[..n] && (p + q)[n..] == p[n..] + q;
      assert (a + b)[1..] == a[1..] + b;
    }
  }

  ghost predicate InBadLeaf(leaves: seq<Leaf>, s: nat) {
    exists l :: l in leaves && !l.good && l.sector <= s < l.sector + l.count
  }

  lemma {:induction false} SectorOfContent(disk: Disk, sector: nat, count: nat, s: nat)
    requires Honest(disk) && sector <= s < sector + count
    ensures |Content(disk, sector, count)| == Bytes(disk, count)
    ensures Holds(Content(disk, sector, count), Bytes(disk, s - sector), disk.sectors(s))
  {
    ContentLength(disk, sector, count);
    ContentLength(disk, sector, count - 1);
    if s == sector + count - 1 {
      assert Bytes(disk, s - sector) == Bytes(disk, count - 1);
    } else {
      SectorOfContent(disk, sector, count - 1, s);
    }
  }

  /** Every sector outside the leaves that were given up is in the buffer, at its own place. */
  lemma {:induction false} EverySector(disk: Disk, part: seq<byte>, leaves: seq<Leaf>, sector: nat, count: nat, s: nat)
    requires Honest(disk) && Tiles(leaves, sector, count) && Restores(disk, part, leaves)
    requires sector <= s < sector + count
    ensures InBadLeaf(leaves, s) || Holds(part, Bytes(disk, s - sector), disk.sectors(s))
  {
    hide Holds, Honest, Content, Bytes;
    var l := leaves[0];
    var n := Bytes(disk, l.count);
    var s1 := sector + l.count;
    if s < s1 {
      assert l in leaves;
      if l.good {
        SectorOfContent(disk, sector, l.count, s);
        HoldsWithin(part, n, Bytes(disk, s - sector), disk.sectors(s));
      }
    } else {
      EverySector(disk, part[n..], leaves[1..], s1, count - l.count, s);
      BytesAdd(disk, l.count, s - s1);
      HoldsWithin(part, n, Bytes(disk, s - s1), disk.sectors(s));
      if InBadLeaf(leaves[1..], s) {
        var b :| b in leaves[1..] && !b.good && b.sector <= s < b.sector + b.count;
        assert b in leaves;
      }
    }
  }

  lemma SameProduct(a: nat, b: nat, size: nat)
    requires size > 0 && a * size == b * size
    ensures a == b
  {
    assert (a - b) * size == 0;
  }

  lemma AnswerIsContent(disk: Disk, n: nat, sector: nat, count: nat)
    requires Honest(disk) && sector < 0x1_0000_0000 && Delivers(disk, n, sector, count)
    ensures Received(disk.answer(n, ReadCommand(sector, count), Bytes(disk, count)).packets, Bytes(disk, count))
            == Some(Content(disk, sector, count))
  {
    hide Received, ReadCommand, Requested, Acknowledges, Content;
    CommandAsks(sector, count);
    var asked := count % 0x1_0000;
    ContentLength(disk, sector, asked);
    ContentLength(disk, sector, count);
    if disk.sectorSize == 0 {
      assert Content(disk, sector, asked) == Content(disk, sector, count);
    } else {
      SameProduct(asked, count, disk.sectorSize);
    }
  }

  lemma ReceivedStep(done: seq<byte>, packets: seq<Option<seq<byte>>>, k: nat, left: nat)
    requires k < |packets| && packets[k].Some?
    ensures var data, r := packets[k].value, Received(packets[k..], left);
            && (|data| > left || |data| > PACKET ==> r.None?)
            && (|data| == left <= PACKET ==> Following(done, r) == Some(done + data))
            && (|data| < left && |data| != PACKET ==> r.None?)
            && (|data| < left && |data| == PACKET ==>
                  Following(done, r) == Following(done + data, Received(packets[k + 1..], left - PACKET)))
  {
    assert packets[k..][1..] == packets[k + 1..];
    var data := packets[k].value;
    if |data| < left && |data| == PACKET {
      var rest := Received(packets[k + 1..], left - PACKET);
      if rest.Some? { assert done + (data + rest.value) == done + data + rest.value; }
    }
  }

  lemma ReceivedNothing(done: seq<byte>, packets: seq<Option<seq<byte>>>, k: nat, left: nat)
    requires k == |packets| || (k < |packets| && packets[k].None?)
    ensures Following(done, Received(packets[k..], left)).None?
  {
  }

  lemma OneTried(disk: Disk, leaf: Leaf, n: nat)
    requires leaf.sector < 0x1_0000_0000 && leaf.good == Delivers(disk, n, leaf.sector, leaf.count)
    requires leaf.good || leaf.count <= 64
    ensures Tiles([leaf], leaf.sector, leaf.count) && AllTried(disk, [leaf], n, n + 1)
  {
    hide Delivers;
    assert [leaf][1..] == [] && Tiles([], leaf.sector + leaf.count, 0);
  }

  lemma {:induction false} RecoveryTiles(disk: Disk, n: nat, sector: nat, count: nat)
    requires sector + count <= 0x1_0000_0000 && sector < 0x1_0000_0000
    ensures var (leaves, end) := Recovery(disk, n, sector, count);
            n < end && Tiles(leaves, sector, count) && AllTried(disk, leaves, n, end)
    decreases count
  {
    hide Delivers, Tiles, AllTried;
    if Delivers(disk, n, sector, count) || count <= 64 {
      OneTried(disk, Leaf(sector, count, Delivers(disk, n, sector, count)), n);
    } else {
      var half := count / 2;
      var (left, next) := Recovery(disk, n + 1, sector, half);
      var (right, end) := Recovery(disk, next, sector + half, count - half);
      RecoveryTiles(disk, n + 1, sector, half);
      RecoveryTiles(disk, next, sector + half, count - half);
      TilesAppend(left, right, sector, half, count - half);
      TriedAppend(disk, left, right, n, n + 1, next, end);
    }
  }

  /** However the disk fails, a range needs at most one command for every 16 sectors, or a single one. */
  lemma {:induction false} RecoveryCost(disk: Disk, n: nat, sector: nat, count: nat)
    requires sector + count <= 0x1_0000_0000 && sector < 0x1_0000_0000
    ensures var (leaves, end) := Recovery(disk, n, sector, count);
            end - n == 2 * |leaves| - 1 && (count >= 32 ==> 32 * |leaves| <= count) && (count <= 64 ==> |leaves| == 1)
    decreases count
  {
    hide Delivers;
    if !Delivers(disk, n, sector, count) && count > 64 {
      RecoveryCost(disk, n + 1, sector, count / 2);
      RecoveryCost(disk, Recovery(disk, n + 1, sector, count / 2).1, sector + count / 2, count - count / 2);
    }
  }

  /** A stretch that was split, and is done. */
  lemma RecoverySplit(disk: Disk, n: nat, sector: nat, count: nat, half: nat, rest: nat, leaves: seq<Leaf>, end: nat)
    requires sector < 0x1_0000_0000 && sector + count <= 0x1_0000_0000
    requires !Delivers(disk, n, sector, count) && count > 64 && half == count / 2 && rest == count - half
    requires sector + half + rest <= 0x1_0000_0000 && rest > 0
    requires Recovered(disk, n + 1, sector, half, rest, leaves, end)
    ensures (leaves, end) == Recovery(disk, n, sector, count) && n <= end
    ensures Tiles(leaves, sector, count) && AllTried(disk, leaves, n, end)
  {
    RecoveryTiles(disk, n, sector, count);
    hide Delivers, Tiles, AllTried;
  }

  /** A stretch that was read, or is given up. */
  lemma RecoveryLeaf(disk: Disk, n: nat, sector: nat, count: nat, leaf: Leaf, leaves: seq<Leaf>, end: nat)
    requires sector < 0x1_0000_0000 && sector + count <= 0x1_0000_0000 && leaves == [leaf] && end == n + 1
    requires leaf == Leaf(sector, count, Delivers(disk, n, sector, count)) && (leaf.good || count <= 64)
    ensures (leaves, end) == Recovery(disk, n, sector, count) && n <= end
    ensures Tiles(leaves, sector, count) && AllTried(disk, leaves, n, end)
  {
    RecoveryTiles(disk, n, sector, count);
    hide Delivers, Tiles, AllTried;
  }

  lemma OneLeaf(disk: Disk, part: seq<byte>, leaf: Leaf, n: nat)
    requires |part| == Bytes(disk, leaf.count) && leaf.sector < 0x1_0000_0000
    requires leaf.good == Delivers(disk, n, leaf.sector, leaf.count)
    requires leaf.good ==>
               Received(disk.answer(n, ReadCommand(leaf.sector, leaf.count), |part|).packets, |part|) == Some(part)
    ensures Honest(disk) ==> Restores(disk, part, [leaf])
  {
    if leaf.good && Honest(disk) { AnswerIsContent(disk, n, leaf.sector, leaf.count); }
    hide Honest, Delivers, ReadCommand, Received, Content, Bytes;
    assert [leaf][1..] == [] && part[..|part|] == part;
    assert Restores(disk, part[|part|..], []);
  }

  /** Only what lies between start and end has changed. */
  ghost predicate Within(before: seq<byte>, after: seq<byte>, start: nat, end: nat) {
    && start <= end <= |before| == |after|
    && after[..start] == before[..start] && after[end..] == before[end..]
  }

  lemma Spliced(all: seq<byte>, before: seq<byte>, after: seq<byte>, at: nat, packet: seq<byte>, start: nat, end: nat)
    requires start <= at && at + |packet| <= end <= |before| && Within(all, before, start, end)
    requires after == before[..at] + packet + before[at + |packet|..]
    ensures Within(all, after, start, end) && after[start..at + |packet|] == before[start..at] + packet
  {
    assert after[..start] == before[..start] && after[end..] == before[end..];
  }

  lemma Halves(b0: seq<byte>, b1: seq<byte>, b2: seq<byte>, start: nat, middle: nat, end: nat)
    requires Within(b0, b1, start, middle) && Within(b1, b2, middle, end)
    ensures Within(b0, b2, start, end) && b2[start..end] == b1[start..middle] + b2[middle..end]
  {
    assert b1[end..] == b1[middle..][end - middle..] && b0[end..] == b0[middle..][end - middle..];
    assert b2[..start] == b2[..middle][..start] && b1[..start] == b1[..middle][..start];
    assert b2[start..middle] == b2[..middle][start..] && b1[start..middle] == b1[..middle][start..];
  }

  lemma CopyOne(b0: seq<byte>, at: nat, packet: seq<byte>, i: nat)
    requires at + |packet| <= |b0| && i < |packet|
    ensures (b0[..at] + packet[..i] + b0[at + i..])[at + i := packet[i]]
            == b0[..at] + packet[..i + 1] + b0[at + (i + 1)..]
  {
  }

  class Reader {
    const disk: Disk
    /** The number of commands given so far, and the tag of the last one. */
    var commands: nat
    var tag: nat

    constructor (disk: Disk)
      ensures this.disk == disk && commands == 0 && tag == 12345 && Valid()
    {
      this.disk, commands, tag := disk, 0, 12345;
    }

    ghost predicate Valid()
      reads this
    {
      tag == (12345 + commands) % 0x1_0000_0000
    }

    method Copy(buffer: array<byte>, at: nat, packet: seq<byte>)
      requires at + |packet| <= buffer.Length
      modifies buffer
      ensures buffer[..] == old(buffer[..])[..at] + packet + old(buffer[..])[at + |packet|..]
    {
      ghost var b0 := buffer[..];
      assert packet[..|packet|] == packet;
      for i := 0 to |packet|
        invariant buffer[..] == b0[..at] + packet[..i] + b0[at + i..]
      {
        CopyOne(b0, at, packet, i);
        buffer[at + i] := packet[i];
      }
    }

    /** Takes packets to the buffer until length bytes have come. */
    method ReadPackets(buffer: array<byte>, start: nat, length: nat, packets: seq<Option<seq<byte>>>) returns (ok: bool)
      requires start + length <= buffer.Length
      modifies buffer
      ensures ok <==> Received(packets, length).Some?
      ensures ok ==> Received(packets, length) == Some(buffer[start..start + length])
      ensures Within(old(buffer[..]), buffer[..], start, start + length)
    {
      var at: nat, left: nat, k: nat := start, length, 0;
      ghost var all := Received(packets, length);
      assert packets[0..] == packets && buffer[start..start] == [];
      FollowingNothing(all);
      hide Received, Following;
      while true
        invariant start <= at && at + left == start + length && k <= |packets|
        invariant all == Following(buffer[start..at], Received(packets[k..], left))
        invariant Within(old(buffer[..]), buffer[..], start, start + length)
        decreases left
      {
        if k >= |packets| || packets[k].None? {
          ReceivedNothing(buffer[start..at], packets, k, left);
          return false;
        }
        var packet := packets[k].value;
        ghost var done := buffer[start..at];
        ReceivedStep(done, packets, k, left);
        if |packet| > left || |packet| > PACKET { return false; }
        ghost var before := buffer[..];
        Copy(buffer, at, packet);
        Spliced(old(buffer[..]), before, buffer[..], at, packet, start, start + length);
        assert buffer[start..at + |packet|] == done + packet;
        if |packet| == left { return true; }
        if |packet| != PACKET { return false; }
        at, left, k := at + PACKET, left - PACKET, k + 1;
      }
    }

    /** Reads length bytes to the buffer from start on; it succeeds exactly if every part of the exchange is right. */
    method StorageRead(buffer: array<byte>, start: nat, length: nat, cb: seq<byte>) returns (ok: bool)
      requires Valid() && start + length <= buffer.Length
      modifies this, buffer
      ensures Valid() && commands == old(commands) + 1 && tag == (old(tag) + 1) % 0x1_0000_0000
      ensures ok <==> var ex := disk.answer(old(commands), cb, length);
                      && ex.sent == 31 && PacketsFit(ex.packets, length)
                      && ex.status.Some? && StatusBytes(ex.status.value, tag)
      ensures ok <==> Succeeds(disk.answer(old(commands), cb, length), Tag(old(commands)), length)
      ensures ok ==> var packets := disk.answer(old(commands), cb, length).packets;
                     && PacketsHold(packets, buffer[start..start + length])
                     && Received(packets, length) == Some(buffer[start..start + length])
      ensures Within(old(buffer[..]), buffer[..], start, start + length)
    {
      NextTag(commands);
      tag := (tag + 1) % 0x1_0000_0000;
      var ex := disk.answer(commands, cb, length);
      commands := commands + 1;
      assert Valid() && tag == Tag(old(commands));
      SucceedsIff(ex, tag, length);
      hide Valid, Tag, Acknowledges, Received, PacketsFit, PacketsHold, StatusBytes;
      if ex.sent != 31 { return false; }
      ok := ReadPackets(buffer, start, length, ex.packets);
      if !ok { return; }
      ReceivedHolds(ex.packets, length);
      ok := Acknowledges(ex.status, tag);
    }

    /** Reads the sectors to their place in the buffer, splitting what fails in two as long as it is large. */
    method ReadOrDieTrying(sector: nat, count: nat, buffer: array<byte>, start: nat) returns (ghost leaves: seq<Leaf>)
      requires Valid() && sector < 0x1_0000_0000 && sector + count <= 0x1_0000_0000
      requires Bytes(disk, count) < 0x1_0000_0000 && start + Bytes(disk, count) <= buffer.Length
      modifies this, buffer
      ensures Valid() && old(commands) <= commands && Tiles(leaves, sector, count)
      ensures AllTried(disk, leaves, old(commands), commands)
      ensures (leaves, commands) == Recovery(disk, old(commands), sector, count)
      ensures Honest(disk) ==> Restores(disk, buffer[start..start + Bytes(disk, count)], leaves)
      ensures Within(old(buffer[..]), buffer[..], start, start + Bytes(disk, count))
      decreases count, 1
    {
      assert THRESHOLD == 64;
      DeliversIs(disk, commands, sector, count);
      hide *;
      var cb, size := ReadCommand(sector, count), Bytes(disk, count);
      ghost var n := commands;
      var ok := StorageRead(buffer, start, size, cb);
      if !ok && count > THRESHOLD {
        var half := count / 2;
        var rest := count - half;
        HalvesFit(disk, sector, count, half, rest);
        leaves := ReadHalves(sector, half, rest, buffer, start, size);
        RecoverySplit(disk, n, sector, count, half, rest, leaves, commands);
      } else {
        ghost var leaf := Leaf(sector, count, ok);
        leaves := [leaf];
        RecoveryLeaf(disk, n, sector, count, leaf, leaves, commands);
        OneLeaf(disk, buffer[start..start + size], leaf, n);
      }
    }

    /** Reads the lower part of a stretch and then the upper part. */
    method ReadHalves(sector: nat, half: nat, rest: nat, buffer: array<byte>, start: nat, ghost size: nat)
      returns (ghost leaves: seq<Leaf>)
      requires Valid() && half > 0 && rest > 0 && sector + half + rest <= 0x1_0000_0000
      requires size == Bytes(disk, half) + Bytes(disk, rest) < 0x1_0000_0000 && start + size <= buffer.Length
      modifies this, buffer
      ensures Valid() && Recovered(disk, old(commands), sector, half, rest, leaves, commands)
      ensures Within(old(buffer[..]), buffer[..], start, start + size)
      ensures Honest(disk) ==> Restores(disk, buffer[start..start + size], leaves)
      decreases half + rest, 0
    {
      hide Honest, Recovery, Restores, Bytes, Valid, Within;
      var middle := start + Bytes(disk, half);
      ghost var b0, n, end := buffer[..], commands, start + size;
      ghost var left := ReadOrDieTrying(sector, half, buffer, start);
      ghost var b1 := buffer[..];
      ghost var right := ReadOrDieTrying(sector + half, rest, buffer, middle);
      Halves(b0, b1, buffer[..], start, middle, end);
      RecoveryTiles(disk, n, sector, half);
      if Honest(disk) {
        RestoresAppend(disk, b1[start..middle], buffer[middle..end], left, right, sector, half);
      }
      leaves := left + right;
    }
  }

  // ---------------------------------------------------------------- what is lost

  /** Reads that touch no bad sector always succeed; the others may do either, and differently each time. */
  ghost predicate FailsOnlyAt(disk: Disk, bad: set<nat>) {
    forall n, sector: nat, count: nat | sector < 0x1_0000_0000 && 0 < count < 0x1_0000
                                            && (forall b | b in bad :: b < sector || sector + count <= b) ::
      Delivers(disk, n, sector, count)
  }

  /** Some bad sector is less than 64 sectors away. */
  ghost predicate NearBad(bad: set<nat>, s: nat) {
    exists b | b in bad :: s < b + 64 && b < s + 64
  }

  lemma BadLeafIsNear(disk: Disk, bad: set<nat>, leaves: seq<Leaf>, lo: nat, hi: nat, s: nat)
    requires FailsOnlyAt(disk, bad) && InBadLeaf(leaves, s) && AllTried(disk, leaves, lo, hi)
    ensures NearBad(bad, s)
  {
    hide Delivers;
    var l :| l in leaves && !l.good && l.sector <= s < l.sector + l.count;
    var n :| lo <= n < hi && Delivers(disk, n, l.sector, l.count) == l.good;
    assert !(forall b | b in bad :: b < l.sector || l.sector + l.count <= b);
    var b :| b in bad && l.sector <= b < l.sector + l.count;
    assert s < b + 64 && b < s + 64;
  }

  /** From an honest disk every sector is recovered that is 64 sectors or more away from all bad ones. */
  lemma LossIsLocal(disk: Disk, bad: set<nat>, part: seq<byte>, leaves: seq<Leaf>, lo: nat, hi: nat,
                    sector: nat, count: nat, s: nat)
    requires Honest(disk) && FailsOnlyAt(disk, bad)
    requires Tiles(leaves, sector, count) && Restores(disk, part, leaves) && sector <= s < sector + count
    requires AllTried(disk, leaves, lo, hi)
    ensures NearBad(bad, s) || Holds(part, Bytes(disk, s - sector), disk.sectors(s))
  {
    hide Honest, Tiles, Restores, FailsOnlyAt, AllTried, NearBad, Bytes, Holds;
    EverySector(disk, part, leaves, sector, count, s);
    if InBadLeaf(leaves, s) { BadLeafIsNear(disk, bad, leaves, lo, hi, s); }
  }

  // ---------------------------------------------------------------- a disk with bad spots

  predicate Touches(bad: set<nat>, sector: nat, count: nat) {
    exists b | b in bad :: sector <= b < sector + count
  }

  function Packets(sectors: nat -> seq<byte>, sector: nat, count: nat): seq<Option<seq<byte>>> {
    seq(count, i requires 0 <= i < count => Some(sectors(sector + i)))
  }

  function StatusOf(tag: nat): seq<byte>
    requires tag < 0x1_0000_0000
  {
    var bs := BigEndian32(tag);
    [0x55, 0x53, 0x42, 0x53, bs[3], bs[2], bs[1], bs[0], 0, 0, 0, 0, 0]
  }

  /** Gives each sector as a packet of its own, and fails if a sector asked for is bad or the lengths disagree. */
  function Flawed(sectors: nat -> seq<byte>, bad: set<nat>): Disk {
    Disk(PACKET, sectors, (n: nat, cb: seq<byte>, length: nat) =>
      if |cb| == 10 && length == Requested(cb).1 * PACKET && !Touches(bad, Requested(cb).0, Requested(cb).1)
      then Exchange(31, Packets(sectors, Requested(cb).0, Requested(cb).1), Some(StatusOf(Tag(n))))
      else Exchange(31, [], None))
  }

  lemma StatusAcknowledges(tag: nat)
    requires tag < 0x1_0000_0000
    ensures Acknowledges(Some(StatusOf(tag)), tag)
  {
    var bs, status := BigEndian32(tag), StatusOf(tag);
    BigEndianRoundTrip(tag);
    assert status[..4] == [0x55, 0x53, 0x42, 0x53];
    assert status[4..8] == [bs[3], bs[2], bs[1], bs[0]];
    hide BigEndian32;
  }

  lemma {:induction false} ContentFront(disk: Disk, sector: nat, count: nat)
    requires count > 0
    ensures Content(disk, sector, count) == disk.sectors(sector) + Content(disk, sector + 1, count - 1)
  {
    if count == 1 {
      assert [] + disk.sectors(sector) == disk.sectors(sector) + [];
    } else {
      ContentFront(disk, sector, count - 1);
      var s0, sN := disk.sectors(sector), disk.sectors(sector + count - 1);
      assert s0 + Content(disk, sector + 1, count - 2) + sN == s0 + (Content(disk, sector + 1, count - 2) + sN);
    }
  }

  lemma {:induction false} PacketsReceived(disk: Disk, sector: nat, count: nat)
    requires disk.sectorSize == PACKET && (forall s :: |disk.sectors(s)| == PACKET) && count > 0
    ensures Received(Packets(disk.sectors, sector, count), Bytes(disk, count)) == Some(Content(disk, sector, count))
    decreases count
  {
    var packets := Packets(disk.sectors, sector, count);
    ContentFront(disk, sector, count);
    BytesAdd(disk, 1, count - 1);
    if count == 1 {
      assert disk.sectors(sector) + [] == disk.sectors(sector);
    } else {
      PacketsReceived(disk, sector + 1, count - 1);
      assert packets[1..] == Packets(disk.sectors, sector + 1, count - 1);
    }
  }

  lemma FlawedAnswers(sectors: nat -> seq<byte>, bad: set<nat>, n: nat, cb: seq<byte>, length: nat)
    requires (forall s :: |sectors(s)| == PACKET) && |cb| == 10
    ensures var disk := Flawed(sectors, bad);
            var (sector, count) := Requested(cb);
            var ex := disk.answer(n, cb, length);
            && (Received(ex.packets, length).Some? ==>
                  Received(ex.packets, length).value == Content(disk, sector, count))
            && (length == count * PACKET > 0 && !Touches(bad, sector, count) ==> Succeeds(ex, Tag(n), length))
  {
    var disk := Flawed(sectors, bad);
    var (sector, count) := Requested(cb);
    StatusAcknowledges(Tag(n));
    if count > 0 { PacketsReceived(disk, sector, count); }
    hide Requested, Acknowledges, Content, Touches, StatusOf, Tag;
  }

  lemma Untouched(bad: set<nat>, sector: nat, count: nat)
    requires forall b | b in bad :: b < sector || sector + count <= b
    ensures !Touches(bad, sector, count)
  {
  }

  /** Whatever its sectors hold and wherever it is flawed, such a disk is honest and fails only at its flaws. */
  lemma FlawedIsHonest(sectors: nat -> seq<byte>, bad: set<nat>)
    requires forall s :: |sectors(s)| == PACKET
    ensures Honest(Flawed(sectors, bad)) && FailsOnlyAt(Flawed(sectors, bad), bad)
  {
    var disk := Flawed(sectors, bad);
    hide Received, Acknowledges, Requested, ReadCommand, Packets, Content, StatusOf, Touches;
    forall n, cb, tag, length | |cb| == 10 && Succeeds(disk.answer(n, cb, length), tag, length)
      ensures Received(disk.answer(n, cb, length).packets, length).value
              == Content(disk, Requested(cb).0, Requested(cb).1)
    {
      FlawedAnswers(sectors, bad, n, cb, length);
    }
    forall n, sector: nat, count: nat | sector < 0x1_0000_0000 && 0 < count < 0x1_0000
                                            && forall b | b in bad :: b < sector || sector + count <= b
      ensures Delivers(disk, n, sector, count)
    {
      Untouched(bad, sector, count);
      CommandAsks(sector, count);
      FlawedAnswers(sectors, bad, n, ReadCommand(sector, count), Bytes(disk, count));
    }
  }
}
