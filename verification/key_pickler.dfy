/** Keys and their pickles: the KeyPickler encoder, and the stack machine that reads its output back. */
module Keys {
  import opened Basics

  /** The objects KeyPickler supports. A str of the source is a byte string; int and long are one type. */
  datatype Key =
    | NoneKey
    | Int(n: int)
    | Str(s: seq<byte>)
    | Tuple(items: seq<Key>)

  /** The truth value of a key in a condition. */
  predicate Truthy(k: Key) {
    match k
    case NoneKey => false
    case Int(n) => n != 0
    case Str(s) => s != []
    case Tuple(items) => items != []
  }

  /** None, zero, the empty string and the empty tuple count as false, and nothing else does. */
  lemma FalseKeys(k: Key)
    ensures !Truthy(k) <==> k in {NoneKey, Int(0), Str([]), Tuple([])}
  {
  }
}

module KeyPickler {
  import opened Basics
  import opened Keys

  const MARK: byte := '(' as int

  const TUPLE: byte := 't' as int

  const STOP: byte := '.' as int

  const NONE: byte := 'N' as int

  const SHORT_BINSTRING: byte := 'U' as int

  const BINSTRING: byte := 'T' as int

  const BININT1: byte := 'K' as int

  const BININT2: byte := 'M' as int

  const INT: byte := 'I' as int

  const NEWLINE: byte := '\n' as int

  const MINUS: byte := '-' as int

  const ZERO: byte := '0' as int

  // ---------------------------------------------------------------- encoding

  function LittleEndian(width: nat, n: nat): (bs: seq<byte>)
    ensures |bs| == width
  {
    if width == 0 then [] else [n % 0x100] + LittleEndian(width - 1, n / 0x100)
  }

  function Digits(n: nat): (ds: seq<byte>)
    ensures ds != [] && forall d | d in ds :: ZERO <= d <= ZERO + 9
  {
    if n < 10 then [ZERO + n] else Digits(n / 10) + [ZERO + n % 10]
  }

  function Decimal(n: int): seq<byte> {
    if n < 0 then [MINUS] + Digits(-n) else Digits(n)
  }

  /** Packing the length of a string of 4 GB or more into four bytes is an error. */
  predicate Packable(k: Key) {
    match k
    case Str(s) => |s| < 0x1_0000_0000
    case Tuple(items) => forall i | 0 <= i < |items| :: Packable(items[i])
    case _ => true
  }

  function SerializeAtom(k: Key): seq<byte>
    requires !k.Tuple?
  {
    match k
    case NoneKey => [NONE]
    case Int(n) =>
      if 0 <= n < 0x100 then [BININT1] + LittleEndian(1, n)
      else if 0 <= n < 0x1_0000 then [BININT2] + LittleEndian(2, n)
      else [INT] + Decimal(n) + [NEWLINE]
    case Str(s) =>
      if |s| < 0x100 then [SHORT_BINSTRING] + LittleEndian(1, |s|) + s
      else [BINSTRING] + LittleEndian(4, |s|) + s
  }

  function Serialize(k: Key): seq<byte>
    decreases k, 1
  {
    if k.Tuple? then [MARK] + SerializeAll(k.items) + [TUPLE] else SerializeAtom(k)
  }

  function SerializeAll(ks: seq<Key>): seq<byte>
    decreases ks, 0
  {
    if ks == [] then [] else Serialize(ks[0]) + SerializeAll(ks[1..])
  }

  function Dumps(k: Key): Option<seq<byte>> {
    if Packable(k) then Some(Serialize(k) + [STOP]) else None
  }

  // ---------------------------------------------------------------- decoding

  function FromLittleEndian(bs: seq<byte>): nat {
    if bs == [] then 0 else bs[0] + 0x100 * FromLittleEndian(bs[1..])
  }

  function FromDigits(ds: seq<byte>): int {
    if ds == [] then 0 else 10 * FromDigits(ds[..|ds| - 1]) + (ds[|ds| - 1] - ZERO)
  }

  function FromDecimal(ds: seq<byte>): int {
    if ds != [] && ds[0] == MINUS then -FromDigits(ds[1..]) else FromDigits(ds)
  }

  function LineLength(bs: seq<byte>): (n: nat)
    ensures n <= |bs|
  {
    if bs == [] || bs[0] == NEWLINE then 0 else 1 + LineLength(bs[1..])
  }

  /** Reads a string whose length takes the first width bytes. */
  function ReadString(width: nat, bs: seq<byte>): (r: Option<(Key, seq<byte>)>)
    ensures r.Some? ==> |r.value.1| <= |bs|
  {
    if |bs| < width then None
    else
      var n := FromLittleEndian(bs[..width]);
      if |bs| < width + n then None else Some((Str(bs[width..width + n]), bs[width + n..]))
  }

  function ReadInt(width: nat, bs: seq<byte>): (r: Option<(Key, seq<byte>)>)
    ensures r.Some? ==> |r.value.1| <= |bs|
  {
    if |bs| < width then None else Some((Int(FromLittleEndian(bs[..width])), bs[width..]))
  }

  function ReadLine(bs: seq<byte>): (r: Option<(Key, seq<byte>)>)
    ensures r.Some? ==> |r.value.1| <= |bs|
  {
    var n := LineLength(bs);
    if n == |bs| then None else Some((Int(FromDecimal(bs[..n])), bs[n + 1..]))
  }

  function ReadAtom(bs: seq<byte>): (r: Option<(Key, seq<byte>)>)
    ensures r.Some? ==> |r.value.1| < |bs|
  {
    if bs == [] then None
    else if bs[0] == NONE then Some((NoneKey, bs[1..]))
    else if bs[0] == SHORT_BINSTRING then ReadString(1, bs[1..])
    else if bs[0] == BINSTRING then ReadString(4, bs[1..])
    else if bs[0] == BININT1 then ReadInt(1, bs[1..])
    else if bs[0] == BININT2 then ReadInt(2, bs[1..])
    else if bs[0] == INT then ReadLine(bs[1..])
    else None
  }

  /** A cell of the unpickler's stack. */
  datatype Cell = Mark | Val(key: Key)

  function PopToMark(stack: seq<Cell>): Option<(seq<Cell>, seq<Key>)> {
    if stack == [] then None
    else
      var below := stack[..|stack| - 1];
      match stack[|stack| - 1]
      case Mark => Some((below, []))
      case Val(k) =>
        match PopToMark(below)
        case None => None
        case Some((rest, items)) => Some((rest, items + [k]))
  }

  /** Runs the unpickler up to its stop opcode; the result is the key on top and the bytes not read. */
  function Load(bs: seq<byte>, stack: seq<Cell>): Option<(Key, seq<byte>)>
    decreases |bs|
  {
    if bs == [] then None
    else if bs[0] == STOP then
      if stack != [] && stack[|stack| - 1].Val? then Some((stack[|stack| - 1].key, bs[1..])) else None
    else if bs[0] == MARK then Load(bs[1..], stack + [Mark])
    else if bs[0] == TUPLE then
      match PopToMark(stack)
      case None => None
      case Some((below, items)) => Load(bs[1..], below + [Val(Tuple(items))])
    else
      match ReadAtom(bs)
      case None => None
      case Some((k, rest)) => Load(rest, stack + [Val(k)])
  }

  function Loads(bs: seq<byte>): Option<(Key, seq<byte>)> {
    Load(bs, [])
  }

  // ---------------------------------------------------------------- numbers

  function Pow256(width: nat): nat {
    if width == 0 then 1 else 0x100 * Pow256(width - 1)
  }

  lemma {:induction false} LittleEndianRoundTrip(width: nat, n: nat)
    requires n < Pow256(width)
    ensures FromLittleEndian(LittleEndian(width, n)) == n
  {
    if width > 0 {
      LittleEndianRoundTrip(width - 1, n / 0x100);
      assert LittleEndian(width, n)[1..] == LittleEndian(width - 1, n / 0x100);
    }
  }

  lemma {:induction false} DigitsRoundTrip(n: nat)
    ensures FromDigits(Digits(n)) == n
  {
    if n < 10 {
      assert Digits(n)[..0] == [];
    } else {
      DigitsRoundTrip(n / 10);
      assert Digits(n)[..|Digits(n)| - 1] == Digits(n / 10);
    }
  }

  lemma DecimalRoundTrip(n: int)
    ensures FromDecimal(Decimal(n)) == n
    ensures NEWLINE !in Decimal(n)
  {
    if n < 0 {
      DigitsRoundTrip(-n);
      assert Decimal(n)[1..] == Digits(-n);
    } else {
      DigitsRoundTrip(n);
      assert Digits(n)[0] in Digits(n);
    }
  }

  lemma {:induction false} LineLengthOf(line: seq<byte>, rest: seq<byte>)
    requires NEWLINE !in line
    ensures LineLength(line + [NEWLINE] + rest) == |line|
  {
    if line != [] {
      LineLengthOf(line[1..], rest);
      assert (line + [NEWLINE] + rest)[1..] == line[1..] + [NEWLINE] + rest;
    }
  }

  // ---------------------------------------------------------------- round trip

  lemma ReadIntOf(width: nat, n: nat, rest: seq<byte>)
    requires n < Pow256(width)
    ensures ReadInt(width, LittleEndian(width, n) + rest) == Some((Int(n), rest))
  {
    LittleEndianRoundTrip(width, n);
    var bs := LittleEndian(width, n) + rest;
    assert bs[..width] == LittleEndian(width, n) && bs[width..] == rest;
  }

  lemma ReadStringOf(width: nat, s: seq<byte>, rest: seq<byte>)
    requires |s| < Pow256(width)
    ensures ReadString(width, LittleEndian(width, |s|) + s + rest) == Some((Str(s), rest))
  {
    LittleEndianRoundTrip(width, |s|);
    var bs := LittleEndian(width, |s|) + s + rest;
    assert bs[..width] == LittleEndian(width, |s|);
    assert bs[width..width + |s|] == s && bs[width + |s|..] == rest;
  }

  lemma ReadLineOf(n: int, rest: seq<byte>)
    ensures ReadLine(Decimal(n) + [NEWLINE] + rest) == Some((Int(n), rest))
  {
    DecimalRoundTrip(n);
    LineLengthOf(Decimal(n), rest);
    var bs := Decimal(n) + [NEWLINE] + rest;
    assert bs[..|Decimal(n)|] == Decimal(n) && bs[|Decimal(n)| + 1..] == rest;
  }

  lemma ReadIntAtomOf(n: int, rest: seq<byte>)
    ensures ReadAtom(SerializeAtom(Int(n)) + rest) == Some((Int(n), rest))
  {
    var bs := SerializeAtom(Int(n)) + rest;
    if 0 <= n < 0x100 {
      ReadIntOf(1, n, rest);
      assert bs[1..] == LittleEndian(1, n) + rest;
    } else if 0 <= n < 0x1_0000 {
      ReadIntOf(2, n, rest);
      assert bs[1..] == LittleEndian(2, n) + rest;
    } else {
      ReadLineOf(n, rest);
      assert bs[1..] == Decimal(n) + [NEWLINE] + rest;
    }
  }

  lemma ReadStringAtomOf(s: seq<byte>, rest: seq<byte>)
    requires Packable(Str(s))
    ensures ReadAtom(SerializeAtom(Str(s)) + rest) == Some((Str(s), rest))
  {
    var bs := SerializeAtom(Str(s)) + rest;
    if |s| < 0x100 {
      ReadStringOf(1, s, rest);
      assert bs[1..] == LittleEndian(1, |s|) + s + rest;
    } else {
      assert Pow256(4) == 0x100 * (0x100 * (0x100 * Pow256(1)));
      ReadStringOf(4, s, rest);
      assert bs[1..] == LittleEndian(4, |s|) + s + rest;
    }
  }

  lemma ReadAtomOf(k: Key, rest: seq<byte>)
    requires !k.Tuple? && Packable(k)
    ensures ReadAtom(SerializeAtom(k) + rest) == Some((k, rest))
    ensures SerializeAtom(k) != [] && SerializeAtom(k)[0] != STOP
    ensures SerializeAtom(k)[0] != MARK && SerializeAtom(k)[0] != TUPLE
  {
    match k
    case NoneKey => assert ([NONE] + rest)[1..] == rest;
    case Int(n) => ReadIntAtomOf(n, rest);
    case Str(s) => ReadStringAtomOf(s, rest);
  }

  function Vals(ks: seq<Key>): (cells: seq<Cell>)
    ensures |cells| == |ks|
  {
    seq(|ks|, i requires 0 <= i < |ks| => Val(ks[i]))
  }

  lemma {:induction false} PopToMarkOf(stack: seq<Cell>, ks: seq<Key>)
    ensures PopToMark(stack + [Mark] + Vals(ks)) == Some((stack, ks))
  {
    var all := stack + [Mark] + Vals(ks);
    if ks == [] {
      assert all[..|all| - 1] == stack;
    } else {
      var init := ks[..|ks| - 1];
      PopToMarkOf(stack, init);
      assert all[..|all| - 1] == stack + [Mark] + Vals(init);
      assert init + [ks[|ks| - 1]] == ks;
    }
  }

  /** Reading the pickle of a key pushes that key, whatever lies below it and whatever follows. */
  lemma {:induction false} LoadSerialized(k: Key, rest: seq<byte>, stack: seq<Cell>)
    requires Packable(k)
    ensures Load(Serialize(k) + rest, stack) == Load(rest, stack + [Val(k)])
    decreases k, 1
  {
    var bs := Serialize(k) + rest;
    if k.Tuple? {
      var body := SerializeAll(k.items);
      assert bs[1..] == body + ([TUPLE] + rest);
      LoadSerializedAll(k.items, [TUPLE] + rest, stack + [Mark]);
      PopToMarkOf(stack, k.items);
      assert ([TUPLE] + rest)[1..] == rest;
    } else {
      ReadAtomOf(k, rest);
    }
  }

  lemma {:induction false} LoadSerializedAll(ks: seq<Key>, rest: seq<byte>, stack: seq<Cell>)
    requires forall i | 0 <= i < |ks| :: Packable(ks[i])
    ensures Load(SerializeAll(ks) + rest, stack) == Load(rest, stack + Vals(ks))
    decreases ks, 0
  {
    if ks == [] {
      assert SerializeAll(ks) + rest == rest && stack + Vals(ks) == stack;
    } else {
      assert SerializeAll(ks) + rest == Serialize(ks[0]) + (SerializeAll(ks[1..]) + rest);
      LoadSerialized(ks[0], SerializeAll(ks[1..]) + rest, stack);
      LoadSerializedAll(ks[1..], rest, stack + [Val(ks[0])]);
      assert stack + Vals(ks) == stack + [Val(ks[0])] + Vals(ks[1..]);
    }
  }

  /** Self-delimiting: the unpickler recovers the key and stops exactly at its end. */
  lemma RoundTrip(k: Key, tail: seq<byte>)
    requires Dumps(k).Some?
    ensures Loads(Dumps(k).value + tail) == Some((k, tail))
  {
    LoadSerialized(k, [STOP] + tail, []);
    assert Dumps(k).value + tail == Serialize(k) + ([STOP] + tail);
    assert ([STOP] + tail)[1..] == tail;
  }

  /** No pickle is a prefix of another key's pickle, so in particular distinct keys have distinct pickles. */
  lemma PrefixFree(k1: Key, k2: Key, tail1: seq<byte>, tail2: seq<byte>)
    requires Dumps(k1).Some? && Dumps(k2).Some?
    requires Dumps(k1).value + tail1 == Dumps(k2).value + tail2
    ensures k1 == k2 && tail1 == tail2
  {
    RoundTrip(k1, tail1);
    RoundTrip(k2, tail2);
  }

  // ---------------------------------------------------------------- the format, byte by byte

  /** ds is the decimal text of n, without leading zeroes. */
  ghost predicate IsDecimal(ds: seq<byte>, n: nat) {
    if n < 10 then ds == [48 + n]
    else |ds| > 1 && ds[|ds| - 1] == 48 + n % 10 && IsDecimal(ds[..|ds| - 1], n / 10)
  }

  lemma {:induction false} DigitsAreDecimal(n: nat)
    ensures IsDecimal(Digits(n), n)
  {
    if n >= 10 {
      DigitsAreDecimal(n / 10);
      assert Digits(n)[..|Digits(n)| - 1] == Digits(n / 10);
    }
  }

  /** Small numbers take one or two bytes, little end first; all others are a line of decimal text. */
  lemma IntBytes(n: int)
    ensures 0 <= n < 0x100 ==> Serialize(Int(n)) == [75, n]
    ensures 0x100 <= n < 0x1_0000 ==> Serialize(Int(n)) == [77, n % 0x100, n / 0x100]
    ensures n >= 0x1_0000 ==> exists ds :: IsDecimal(ds, n) && Serialize(Int(n)) == [73] + ds + [10]
    ensures n < 0 ==> exists ds :: IsDecimal(ds, -n) && Serialize(Int(n)) == [73, 45] + ds + [10]
  {
    if n >= 0x1_0000 {
      DigitsAreDecimal(n);
    } else if n < 0 {
      DigitsAreDecimal(-n);
      assert [73] + Decimal(n) + [10] == [73, 45] + Digits(-n) + [10];
    } else if n >= 0x100 {
      assert LittleEndian(2, n) == [n % 0x100] + LittleEndian(1, n / 0x100);
      assert LittleEndian(1, n / 0x100) == [n / 0x100] + LittleEndian(0, 0);
    } else {
      assert LittleEndian(1, n) == [n] + LittleEndian(0, 0);
    }
  }

  /** A string follows its length, in one byte if it fits and otherwise in four, little end first. */
  lemma StringBytes(s: seq<byte>)
    requires |s| < 0x1_0000_0000
    ensures Serialize(NoneKey) == [78]
    ensures |s| < 0x100 ==> Serialize(Str(s)) == [85, |s|] + s
    ensures var n := |s|;
            n >= 0x100 ==>
              Serialize(Str(s)) ==
              [84, n % 0x100, n / 0x100 % 0x100, n / 0x100 / 0x100 % 0x100, n / 0x100 / 0x100 / 0x100 % 0x100] + s
  {
    var n := |s|;
    assert LittleEndian(1, n) == [n % 0x100] + LittleEndian(0, n / 0x100);
    if n >= 0x100 {
      assert LittleEndian(4, n) == [n % 0x100] + LittleEndian(3, n / 0x100);
      var upper := n / 0x100 / 0x100;
      assert LittleEndian(3, n / 0x100) == [n / 0x100 % 0x100] + LittleEndian(2, upper);
      assert LittleEndian(2, upper) == [upper % 0x100] + LittleEndian(1, upper / 0x100);
    }
  }

  /** Only strings of 4 GB or more, at any depth, cannot be pickled. */
  lemma DumpsFailsOn(n: int, s: seq<byte>, ks: seq<Key>)
    ensures Dumps(NoneKey).Some? && Dumps(Int(n)).Some?
    ensures Dumps(Str(s)).Some? <==> |s| < 4 * 1024 * 1024 * 1024
    ensures Dumps(Tuple(ks)).Some? <==> forall k | k in ks :: Dumps(k).Some?
  {
    hide Serialize;
    if forall k | k in ks :: Dumps(k).Some? {
      forall i | 0 <= i < |ks| ensures Packable(ks[i]) { assert Dumps(ks[i]).Some?; }
    }
  }

  lemma {:induction false} SerializeAllAppend(ks: seq<Key>, k: Key)
    ensures SerializeAll(ks + [k]) == SerializeAll(ks) + Serialize(k)
    decreases |ks|
  {
    hide Serialize;
    if ks == [] {
      assert [] + [k] == [k] && [k][1..] == [];
      assert Serialize(k) + [] == [] + Serialize(k);
    } else {
      SerializeAllAppend(ks[1..], k);
      assert (ks + [k])[1..] == ks[1..] + [k];
      AppendTwice(Serialize(ks[0]), SerializeAll(ks[1..]), Serialize(k));
    }
  }

  /** A tuple is its elements, in order, between two marks; a pickle ends in a stop. */
  lemma {:induction false} TupleBytes(ks: seq<Key>, k: Key)
    ensures Serialize(Tuple([])) == [40, 116]
    ensures exists all :: Serialize(Tuple(ks)) == [40] + all + [116] &&
                          Serialize(Tuple(ks + [k])) == [40] + all + Serialize(k) + [116]
    ensures Dumps(k).Some? ==> Dumps(k).value == Serialize(k) + [46]
  {
    SerializeAllAppend(ks, k);
    var all := SerializeAll(ks);
    assert [40] + SerializeAll(ks + [k]) + [116] == [40] + all + Serialize(k) + [116];
  }
}
