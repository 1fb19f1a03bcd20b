/** Marking the objects reachable from one object, by recursion over a shared memo. */
module MemProf {
  import opened Basics

  type Id = int

  /** The reference graph: every object's referents are objects of the graph. */
  ghost predicate Closed(references: map<Id, seq<Id>>) {
    forall n, r | n in references && r in references[n] :: r in references
  }

  /** b can be reached from a over exactly n references. */
  ghost predicate ReachableIn(references: map<Id, seq<Id>>, a: Id, b: Id, n: nat)
    decreases n
  {
    if n == 0 then a == b
    else a in references && exists c :: c in references[a] && ReachableIn(references, c, b, n - 1)
  }

  ghost predicate Reachable(references: map<Id, seq<Id>>, a: Id, b: Id) {
    exists n: nat :: ReachableIn(references, a, b, n)
  }

  /** A set that contains a and the referents of its members contains all that a reaches. */
  lemma {:induction false} ClosedSetHasReachable(references: map<Id, seq<Id>>, marked: set<Id>, a: Id, b: Id, n: nat)
    requires a in marked && ReachableIn(references, a, b, n)
    requires forall m, r | m in marked && m in references && r in references[m] :: r in marked
    ensures b in marked
    decreases n
  {
    if n > 0 {
      var c :| c in references[a] && ReachableIn(references, c, b, n - 1);
      ClosedSetHasReachable(references, marked, c, b, n - 1);
    }
  }

  /** The references that lead to known objects, in order. */
  function Among(refs: seq<Id>, objects: seq<Id>): seq<Id> {
    if refs == [] then [] else (if refs[0] in objects then [refs[0]] else []) + Among(refs[1..], objects)
  }

  lemma {:induction false} AmongMembers(refs: seq<Id>, objects: seq<Id>)
    ensures forall r :: r in Among(refs, objects) <==> r in refs && r in objects
  {
    if refs != [] { AmongMembers(refs[1..], objects); }
  }

  lemma AmongStep(refs: seq<Id>, all: seq<Id>, k: nat, objects: seq<Id>)
    requires k < |all|
    ensures refs + Among(all[k..], objects)
            == refs + (if all[k] in objects then [all[k]] else []) + Among(all[k + 1..], objects)
  {
    assert all[k..][1..] == all[k + 1..];
  }

  lemma ReachableFrom(references: map<Id, seq<Id>>, a: Id, c: Id, b: Id)
    requires a in references && c in references[a] && Reachable(references, c, b)
    ensures Reachable(references, a, b)
  {
    var n: nat :| ReachableIn(references, c, b, n);
    assert ReachableIn(references, a, b, n + 1);
  }

  /**
   * Everything marked between two memos can be reached from obj, and its referents are marked too; those
   * of obj itself may still be under way.
   */
  ghost predicate Marking(references: map<Id, seq<Id>>, obj: Id, before: set<Id>, marked: set<Id>) {
    forall n | n in marked - before ::
      n in references && Reachable(references, obj, n) && (n == obj || forall r | r in references[n] :: r in marked)
  }

  lemma MarkedMore(references: map<Id, seq<Id>>, obj: Id, referent: Id, m0: set<Id>, m1: set<Id>, m2: set<Id>)
    requires obj in references && referent in references[obj] && m0 <= m1 <= m2
    requires Marking(references, obj, m0, m1) && Marking(references, referent, m1, m2)
    requires referent in m2 - m1 ==> forall r | r in references[referent] :: r in m2
    ensures Marking(references, obj, m0, m2)
  {
    hide Reachable;
    forall n | n in m2 - m0
      ensures n in references && Reachable(references, obj, n) && (n == obj || forall r | r in references[n] :: r in m2)
    {
      if n !in m1 { ReachableFrom(references, obj, referent, n); }
    }
  }

  lemma ReachesItself(references: map<Id, seq<Id>>, obj: Id)
    ensures Reachable(references, obj, obj)
  {
    assert ReachableIn(references, obj, obj, 0);
  }

  lemma ClosedReferents(references: map<Id, seq<Id>>, obj: Id)
    requires Closed(references) && obj in references
    ensures forall r | r in references[obj] :: r in references
  {
  }

  class MemProfiler {
    /** The referents of every object. */
    var references: map<Id, seq<Id>>
    /** The memo of the marking under way. */
    var memo: map<Id, bool>
    /** The objects whose referents have been read, in order. */
    ghost var expanded: seq<Id>

    constructor ()
      ensures references == map[] && memo == map[] && expanded == []
    {
      references, memo, expanded := map[], map[], [];
    }

    /** The references to objects given, in order. */
    method Known(all: seq<Id>, objects: seq<Id>) returns (refs: seq<Id>)
      ensures refs == Among(all, objects)
    {
      refs := [];
      for k := 0 to |all|
        invariant refs + Among(all[k..], objects) == Among(all, objects)
      {
        hide Among;
        AmongStep(refs, all, k, objects);
        if all[k] in objects { refs := refs + [all[k]]; } else { assert refs + [] == refs; }
      }
      assert all[|all|..] == [] && refs + [] == refs;
    }

    /** Records the references between the objects given; those that lead anywhere else are left out. */
    method Collect(objects: seq<Id>, referents: Id -> seq<Id>)
      modifies `references
      ensures Closed(references) && forall o :: o in references <==> o in objects
      ensures forall o | o in objects :: references[o] == Among(referents(o), objects)
    {
      references := map[];
      for i := 0 to |objects|
        invariant forall o :: o in references <==> o in objects[..i]
        invariant forall o | o in references :: references[o] == Among(referents(o), objects)
      {
        var refs := Known(referents(objects[i]), objects);
        references := references[objects[i] := refs];
        assert objects[..i + 1] == objects[..i] + [objects[i]];
      }
      assert objects[..|objects|] == objects;
      forall n, r | n in references && r in references[n] ensures r in references {
        AmongMembers(referents(n), objects);
      }
    }

    ghost predicate Valid()
      reads this
    {
      && Closed(references) && memo.Keys <= references.Keys && (forall n | n in memo :: memo[n])
      && Distinct(expanded) && forall n :: n in expanded <==> n in memo
    }

    /** Reads the referents of an object, and logs that. */
    method Referents(obj: Id) returns (refs: seq<Id>)
      requires obj in references
      modifies `expanded
      ensures refs == references[obj] && expanded == old(expanded) + [obj]
    {
      refs := references[obj];
      expanded := expanded + [obj];
    }

    /** Everything newly marked is reachable from obj, and its referents are marked too. */
    method MarkReachable(obj: Id)
      requires Valid() && obj in references
      modifies `memo, `expanded
      ensures Valid() && old(memo).Keys <= memo.Keys && obj in memo
      ensures old(expanded) <= expanded
      ensures Marking(references, obj, old(memo).Keys, memo.Keys)
      ensures obj !in old(memo) ==> forall r | r in references[obj] :: r in memo
      decreases references.Keys - memo.Keys
    {
      if obj !in memo {
        hide Reachable, Closed, Distinct;
        ghost var m0 := memo;
        DistinctAppend(expanded, obj);
        memo := memo[obj := true];
        ReachesItself(references, obj);
        var referents := Referents(obj);
        ClosedReferents(references, obj);
        for i := 0 to |referents|
          invariant Valid() && m0.Keys + {obj} <= memo.Keys && old(expanded) <= expanded
          invariant forall k | 0 <= k < i :: referents[k] in memo
          invariant Marking(references, obj, m0.Keys, memo.Keys)
        {
          ghost var before := memo;
          MarkReachable(referents[i]);
          MarkedMore(references, obj, referents[i], m0.Keys, before.Keys, memo.Keys);
        }
      }
    }

    /** The objects reachable from obj, each once. */
    method GetReachable(obj: Id) returns (marked: set<Id>)
      requires Closed(references) && obj in references
      modifies `memo, `expanded
      ensures forall n :: n in marked <==> Reachable(references, obj, n)
      ensures Distinct(expanded) && forall n :: n in expanded <==> n in marked
    {
      memo, expanded := map[], [];
      MarkReachable(obj);
      marked := memo.Keys;
      forall n | Reachable(references, obj, n) ensures n in marked {
        var k: nat :| ReachableIn(references, obj, n, k);
        ClosedSetHasReachable(references, marked, obj, n, k);
      }
    }
  }
}
