/** The zero-run compression of binary images: the compressor of the translator, the decompressor of the emulator. */
module RunLength {
  import opened Basics

  function Zeros(n: nat): (s: seq<byte>)
    ensures |s| == n && forall i | 0 <= i < n :: s[i] == 0
  {
    seq(n, _ => 0)
  }

  // ---------------------------------------------------------------- compression

  /** What is put out for n pending zeroes; a count that does not fit 16 bits is an error. */
  function Run(n: nat): Option<seq<byte>> {
    if n < 2 then Some(Zeros(n))
    else if n - 2 > 0xFFFF then None
    else Some([0, 0, (n - 2) % 0x100, (n - 2) / 0x100])
  }

  /** Compresses data that comes after n pending zeroes. Zeroes still pending at the end are dropped. */
  function Compress(data: seq<byte>, n: nat): Option<seq<byte>>
    decreases data
  {
    if data == [] then Some([])
    else if data[0] == 0 then Compress(data[1..], n + 1)
    else
      match (Run(n), Compress(data[1..], 0))
      case (Some(run), Some(rest)) => Some(run + [data[0]] + rest)
      case _ => None
  }

  method CompressRLE(data: seq<byte>) returns (r: Option<seq<byte>>)
    ensures r == Compress(data, 0)
  {
    var output, zeroes := [], 0;
    assert data[0..] == data;
    FollowingNothing(Compress(data, 0));
    for i := 0 to |data|
      invariant Following(output, Compress(data[i..], zeroes)) == Compress(data, 0)
    {
      assert data[i..][1..] == data[i + 1..];
      var byte := data[i];
      if byte == 0 {
        zeroes := zeroes + 1;
      } else {
        var run := Run(zeroes);
        if run.None? { return None; }
        ghost var rest := Compress(data[i + 1..], 0);
        if rest.Some? { assert output + (run.value + [byte] + rest.value) == output + run.value + [byte] + rest.value; }
        output, zeroes := output + run.value + [byte], 0;
      }
    }
    assert output + [] == output;
    r := Some(output);
  }

  // ---------------------------------------------------------------- decompression

  /** What src stands for, after one zero or none; None if a count is cut off. */
  function Decode(src: seq<byte>, zero: bool): Option<seq<byte>>
    decreases |src|
  {
    if src == [] then Some([])
    else if src[0] != 0 || !zero then Following([src[0]], Decode(src[1..], src[0] == 0))
    else if |src| < 3 then None
    else Following(Zeros(1 + src[1] + 0x100 * src[2] as int), Decode(src[3..], false))
  }

  lemma DecodeByte(done: seq<byte>, src: seq<byte>, from: nat, zero: bool)
    requires from < |src| && (src[from] != 0 || !zero)
    ensures Following(done, Decode(src[from..], zero))
            == Following(done + [src[from]], Decode(src[from + 1..], src[from] == 0))
  {
    assert src[from..][1..] == src[from + 1..];
    FollowingTwice(done, [src[from]], Decode(src[from + 1..], src[from] == 0));
  }

  lemma DecodeRun(done: seq<byte>, src: seq<byte>, from: nat)
    requires from < |src| && src[from] == 0 && Decode(src[from..], true).Some?
    ensures from + 2 < |src|
    ensures var n := src[from + 1] + 0x100 * src[from + 2] as int;
            Following(done, Decode(src[from..], true)) == Following(done + Zeros(1 + n), Decode(src[from + 3..], false))
  {
    assert src[from..][3..] == src[from + 3..];
    FollowingTwice(done, Zeros(1 + src[from + 1] + 0x100 * src[from + 2] as int), Decode(src[from + 3..], false));
  }

  /** Into a buffer of zeroes that is large enough, it writes what src stands for and reads exactly src. */
  method DecompressRLE(dest: array<byte>, src: seq<byte>) returns (consumed: nat)
    requires Decode(src, false).Some? && |Decode(src, false).value| <= dest.Length
    requires dest[..] == Zeros(dest.Length)
    modifies dest
    ensures var out := Decode(src, false).value; dest[..] == out + Zeros(dest.Length - |out|)
    ensures consumed == |src|
  {
    var at, from, zeroes := 0, 0, 0;
    assert src[0..] == src && dest[..0] == [];
    FollowingNothing(Decode(src, false));
    while from < |src|
      invariant from <= |src| && 0 <= zeroes <= 1 && at <= dest.Length
      invariant Following(dest[..at], Decode(src[from..], zeroes == 1)) == Decode(src, false)
      invariant forall k | at <= k < dest.Length :: dest[k] == 0
    {
      hide Decode;
      ghost var before := dest[..at];
      if zeroes == 1 && src[from] == 0 {
        DecodeRun(before, src, from);
      } else {
        DecodeByte(before, src, from, zeroes == 1);
      }
      var byte := src[from];
      dest[at] := byte;
      at, from := at + 1, from + 1;
      assert dest[..at] == before + [byte];
      if byte != 0 {
        zeroes := 0;
      } else {
        zeroes := zeroes + 1;
        if zeroes == 2 {
          zeroes := 0;
          var n := src[from] as int + 0x100 * src[from + 1] as int;
          at, from := at + n, from + 2;
          assert dest[..at] == before + Zeros(1 + n);
        }
      }
    }
    assert src[from..] == [] && Decode([], zeroes == 1) == Some([]);
    assert dest[..at] + [] == dest[..at];
    consumed := from;
  }

  // ---------------------------------------------------------------- round trip

  /** data without its trailing zeroes. */
  function Trim(data: seq<byte>): (r: seq<byte>)
    ensures |r| <= |data| && r + Zeros(|data| - |r|) == data
  {
    if data == [] || data[|data| - 1] != 0 then data
    else
      var r := Trim(data[..|data| - 1]);
      assert r + Zeros(|data| - |r|) == r + Zeros(|data| - 1 - |r|) + [0];
      r
  }

  lemma TrimNothing()
    ensures Trim([]) == []
  {
  }

  lemma TrimLast(s: seq<byte>, b: byte)
    ensures Trim(s + [b]) == if b == 0 then Trim(s) else s + [b]
  {
    assert (s + [b])[..|s|] == s;
  }

  lemma {:induction false} TrimKeeps(a: seq<byte>, b: byte, t: seq<byte>)
    requires b != 0
    ensures Trim(a + [b] + t) == a + [b] + Trim(t)
  {
    hide Trim;
    if t == [] {
      TrimLast(a, b);
      TrimNothing();
      assert a + [b] + [] == a + [b];
    } else {
      var init, last := t[..|t| - 1], t[|t| - 1];
      TrimKeeps(a, b, init);
      TrimLast(init, last);
      TrimLast(a + [b] + init, last);
      assert t == init + [last] && a + [b] + t == a + [b] + init + [last];
    }
  }

  lemma {:induction false} TrimZeros(n: nat)
    ensures Trim(Zeros(n)) == []
  {
    if n > 0 {
      TrimZeros(n - 1);
      assert Zeros(n)[..n - 1] == Zeros(n - 1);
    }
  }

  /** A run put out before a nonzero byte decodes to its zeroes and the byte. */
  lemma DecodeRunOut(n: nat, b: byte, rest: seq<byte>)
    requires Run(n).Some? && b != 0
    ensures Decode(Run(n).value + [b] + rest, false) == Following(Zeros(n) + [b], Decode(rest, false))
  {
    var src := Run(n).value + [b] + rest;
    var m := |Run(n).value|;
    assert src[m..] == [b] + rest && src[m + 1..] == rest;
    DecodeByte(Zeros(n), src, m, n == 1);
    if n == 0 {
      assert src[0..] == src && src[m..] == src;
      FollowingNothing(Decode(src, false));
      assert Zeros(0) == [];
    } else if n == 1 {
      DecodeByte([], src, 0, false);
      FollowingNothing(Decode(src, false));
      assert src[0..] == src && [] + [0] == Zeros(1);
    } else {
      DecodeByte([], src, 0, false);
      FollowingNothing(Decode(src, false));
      assert src[0..] == src;
      var tail := src[1..];
      assert Decode(tail, true) == Following(Zeros(n - 1), Decode(src[4..], false)) by { assert tail[3..] == src[4..]; }
      FollowingTwice([0], Zeros(n - 1), Decode(src[4..], false));
      assert [] + [0] + Zeros(n - 1) == Zeros(n) && [] + [0] == [0];
      DecodeByte(Zeros(n), src, m, false);
    }
  }

  // ---------------------------------------------------------------- runs of any length

  /** Any number of zeroes, in pieces that fit the count. */
  function Pieces(n: nat): seq<byte> {
    if Run(n).Some? then Run(n).value else [0, 0, 0xFF, 0xFF] + Pieces(n - 0x10001)
  }

  /** The same compression with long runs in pieces, so that it never fails. */
  function Encode(data: seq<byte>, n: nat): seq<byte>
    decreases data
  {
    if data == [] then []
    else if data[0] == 0 then Encode(data[1..], n + 1)
    else Pieces(n) + [data[0]] + Encode(data[1..], 0)
  }

  lemma FullPiece(rest: seq<byte>)
    ensures Decode([0, 0, 0xFF, 0xFF] + rest, false) == Following(Zeros(0x10001), Decode(rest, false))
  {
    var src := [0, 0, 0xFF, 0xFF] + rest;
    assert src[1..][3..] == rest;
    FollowingTwice([0], Zeros(0x10000), Decode(rest, false));
    assert [0] + Zeros(0x10000) == Zeros(0x10001);
  }

  lemma {:induction false} DecodePieces(n: nat, b: byte, rest: seq<byte>)
    requires b != 0
    ensures Decode(Pieces(n) + [b] + rest, false) == Following(Zeros(n) + [b], Decode(rest, false))
  {
    hide Decode;
    if Run(n).Some? {
      DecodeRunOut(n, b, rest);
    } else {
      var m := n - 0x10001;
      DecodePieces(m, b, rest);
      FullPiece(Pieces(m) + [b] + rest);
      FollowingTwice(Zeros(0x10001), Zeros(m) + [b], Decode(rest, false));
      assert Pieces(n) + [b] + rest == [0, 0, 0xFF, 0xFF] + (Pieces(m) + [b] + rest);
      assert Zeros(0x10001) + (Zeros(m) + [b]) == Zeros(n) + [b];
    }
  }

  lemma ZerosShift(n: nat, tail: seq<byte>)
    ensures Zeros(n) + ([0] + tail) == Zeros(n + 1) + tail && Zeros(0) + tail == tail
  {
  }

  lemma NonzeroDecodes(b: byte, tail: seq<byte>, n: nat, rest: seq<byte>)
    requires b != 0 && Decode(rest, false) == Some(Trim(tail))
    ensures Decode(Pieces(n) + [b] + rest, false) == Some(Trim(Zeros(n) + ([b] + tail)))
  {
    hide Decode, Trim, Pieces;
    DecodePieces(n, b, rest);
    TrimKeeps(Zeros(n), b, tail);
    assert Zeros(n) + ([b] + tail) == Zeros(n) + [b] + tail;
  }

  lemma DecodeNothing()
    ensures Decode([], false) == Some([])
  {
  }

  /** For every byte string, the encoding decodes to the string, but for zeroes at the very end. */
  lemma {:induction false} EncodeDecodes(data: seq<byte>, n: nat)
    ensures Decode(Encode(data, n), false) == Some(Trim(Zeros(n) + data))
    decreases data
  {
    hide Decode, Trim, Pieces;
    if data == [] {
      TrimZeros(n);
      DecodeNothing();
      assert Zeros(n) + data == Zeros(n);
    } else {
      var b, tail := data[0], data[1..];
      assert data == [b] + tail;
      ZerosShift(n, tail);
      if b == 0 {
        EncodeDecodes(tail, n + 1);
      } else {
        EncodeDecodes(tail, 0);
        NonzeroDecodes(b, tail, n, Encode(tail, 0));
      }
    }
  }

  /** What the compressor puts out, if it does not fail, is the encoding. */
  lemma {:induction false} CompressEncodes(data: seq<byte>, n: nat)
    requires Compress(data, n).Some?
    ensures Compress(data, n).value == Encode(data, n)
    decreases data
  {
    hide Run;
    if data == [] {
    } else if data[0] == 0 {
      CompressEncodes(data[1..], n + 1);
    } else {
      CompressEncodes(data[1..], 0);
    }
  }

  /** What the compressor puts out stands for its input, but for zeroes at the very end. */
  lemma CompressDecodes(data: seq<byte>, n: nat)
    requires Compress(data, n).Some?
    ensures Decode(Compress(data, n).value, false) == Some(Trim(Zeros(n) + data))
  {
    CompressEncodes(data, n);
    EncodeDecodes(data, n);
  }

  /** Every byte string comes back in full when its encoding is decompressed into as many zeroes. */
  method EncodeThenLoad(data: seq<byte>) returns (image: array<byte>)
    ensures fresh(image) && image[..] == data
  {
    EncodeDecodes(data, 0);
    assert Zeros(0) + data == data;
    image := new byte[|data|](_ => 0);
    assert image[..] == Zeros(|data|);
    var consumed := DecompressRLE(image, Encode(data, 0));
  }

  /** A nonzero byte at j comes after more zeroes than two and a 16-bit count can stand for. */
  ghost predicate LongRun(data: seq<byte>, j: nat) {
    0x10002 <= j < |data| && data[j] != 0 && forall k | j - 0x10002 <= k < j :: data[k] == 0
  }

  /** Compression fails exactly on images with a run of more than 65537 zeroes before a nonzero byte. */
  lemma {:induction false} CompressFailsIff(data: seq<byte>, n: nat)
    ensures Compress(data, n).None? <==> exists j :: LongRun(Zeros(n) + data, j)
    decreases data
  {
    var all := Zeros(n) + data;
    if data == [] {
    } else if data[0] == 0 {
      CompressFailsIff(data[1..], n + 1);
      assert all == Zeros(n + 1) + data[1..];
    } else {
      var rest := Zeros(0) + data[1..];
      CompressFailsIff(data[1..], 0);
      assert forall i | 0 <= i < |rest| :: rest[i] == all[n + 1 + i];
      assert forall k | n + 1 <= k < |all| :: all[k] == rest[k - n - 1];
      if n >= 0x10002 {
        assert LongRun(all, n);
      }
      if j: nat :| LongRun(rest, j) {
        assert LongRun(all, n + 1 + j);
      }
      if j: nat :| LongRun(all, j) {
        if j != n {
          assert all[n] != 0;
          assert LongRun(rest, j - n - 1);
        }
      }
    }
  }

  lemma {:induction false} CompressZeros(n: nat, rest: seq<byte>, m: nat)
    ensures Compress(Zeros(n) + rest, m) == Compress(rest, m + n)
    decreases n
  {
    var data := Zeros(n) + rest;
    if n == 0 {
      assert data == rest;
    } else {
      assert data[1..] == Zeros(n - 1) + rest;
      CompressZeros(n - 1, rest, m + 1);
    }
  }

  /** The bytes a run of zeroes before a nonzero byte is compressed to. */
  lemma CompressOneRun(n: nat, b: byte)
    requires b != 0
    ensures var r := Compress(Zeros(n) + [b], 0);
            if n == 0 then r == Some([b])
            else if n == 1 then r == Some([0, b])
            else if n > 65537 then r.None?
            else r.Some? && |r.value| == 5 && r.value[0] == r.value[1] == 0
                 && r.value[2] + 256 * r.value[3] as int == n - 2 && r.value[4] == b
  {
    CompressZeros(n, [b], 0);
    assert [b][1..] == [] && Compress([], 0) == Some([]);
    if n <= 65537 {
      var run := if n == 0 then [] else if n == 1 then [0] else [0, 0, (n - 2) % 0x100, (n - 2) / 0x100];
      assert n - 2 <= 0xFFFF && Run(n).Some? && Run(n).value == run;
      assert Compress([b], n) == Some(run + [b] + []);
      assert run + [b] + [] == if n == 0 then [b] else if n == 1 then [0, b] else run + [b];
    }
  }

  /** Any image that compresses is restored in full from its compressed form, into memory set to zero. */
  method CompressThenLoad(data: seq<byte>) returns (image: Option<array<byte>>)
    ensures image.None? <==> exists j :: LongRun(data, j)
    ensures image.Some? ==> fresh(image.value) && image.value[..] == data
  {
    CompressFailsIff(data, 0);
    assert Zeros(0) + data == data;
    var compressed := CompressRLE(data);
    if compressed.None? { return None; }
    CompressDecodes(data, 0);
    var dest := new byte[|data|](_ => 0);
    assert dest[..] == Zeros(|data|);
    var consumed := DecompressRLE(dest, compressed.value);
    image := Some(dest);
  }
}
