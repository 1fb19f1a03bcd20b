/** Types and facts that several models share. */
module Basics {
  type byte = b: int | 0 <= b < 0x100

  datatype Option<+T> = None | Some(value: T) {
    function GetOr(default: T): (r: T)
      ensures if None? then r == default else this == Some(r)
    {
      if Some? then value else default
    }
  }

  /** What the map holds under a key, if anything. */
  function Lookup<K(==), V>(m: map<K, V>, k: K): Option<V> {
    if k in m then Some(m[k]) else None
  }

  ghost predicate Distinct<T>(s: seq<T>) {
    forall i, j | 0 <= i < j < |s| :: s[i] != s[j]
  }

  lemma DistinctAppend<T>(s: seq<T>, x: T)
    requires Distinct(s) && x !in s
    ensures Distinct(s + [x])
  {
  }

  lemma AppendTwice<T>(a: seq<T>, b: seq<T>, c: seq<T>)
    ensures a + b + c == a + (b + c)
  {
  }

  /** The part given lies in s from position pos on. */
  ghost predicate Holds<T>(s: seq<T>, pos: nat, part: seq<T>) {
    pos + |part| <= |s| && s[pos..pos + |part|] == part
  }

  lemma HoldsAppend<T>(s: seq<T>, pos: nat, a: seq<T>, b: seq<T>)
    ensures Holds(s, pos, a + b) <==> Holds(s, pos, a) && Holds(s, pos + |a|, b)
  {
    if Holds(s, pos, a + b) {
      var part := s[pos..pos + |a + b|];
      assert part[..|a|] == a && part[|a|..] == b;
    }
    if Holds(s, pos, a) && Holds(s, pos + |a|, b) {
      assert s[pos..pos + |a + b|] == s[pos..pos + |a|] + s[pos + |a|..pos + |a + b|];
    }
  }

  lemma HoldsOne<T>(s: seq<T>, pos: nat, x: T)
    ensures Holds(s, pos, [x]) <==> pos < |s| && s[pos] == x
  {
    if Holds(s, pos, [x]) {
      assert s[pos..pos + 1][0] == x;
    }
  }

  lemma HoldsWithin<T>(s: seq<T>, n: nat, pos: nat, part: seq<T>)
    requires n <= |s|
    ensures Holds(s[..n], pos, part) ==> Holds(s, pos, part)
    ensures Holds(s[n..], pos, part) ==> Holds(s, n + pos, part)
  {
    if Holds(s[..n], pos, part) { assert s[..n][pos..pos + |part|] == s[pos..pos + |part|]; }
    if Holds(s[n..], pos, part) { assert s[n..][pos..pos + |part|] == s[n + pos..n + pos + |part|]; }
  }

  /** What is already produced, followed by the rest if there is one. */
  function Following(done: seq<byte>, r: Option<seq<byte>>): Option<seq<byte>> {
    if r.None? then None else Some(done + r.value)
  }

  lemma FollowingNothing(r: Option<seq<byte>>)
    ensures Following([], r) == r
  {
    if r.Some? { assert [] + r.value == r.value; }
  }

  lemma FollowingTwice(a: seq<byte>, b: seq<byte>, r: Option<seq<byte>>)
    ensures Following(a, Following(b, r)) == Following(a + b, r)
  {
    if r.Some? { assert a + (b + r.value) == a + b + r.value; }
  }
}
