/** What the internal lists of a whole tree of namespaces should say, and how single operations change it. */
module Catalogs {
  import opened Basics
  import opened Keys
  import opened FlatDb
  import opened LinkedLists

  /** The key list and the child list of every namespace; a path that is absent has two empty lists. */
  datatype Catalog = Catalog(keys: map<Path, seq<Key>>, subs: map<Path, seq<Key>>)

  const EMPTY := Catalog(map[], map[])

  function KeysAt(c: Catalog, p: Path): seq<Key> {
    if p in c.keys then c.keys[p] else []
  }

  function SubsAt(c: Catalog, p: Path): seq<Key> {
    if p in c.subs then c.subs[p] else []
  }

  predicate Occupied(c: Catalog, p: Path) {
    KeysAt(c, p) != [] || SubsAt(c, p) != []
  }

  function WithKeys(c: Catalog, p: Path, s: seq<Key>): Catalog {
    c.(keys := c.keys[p := s])
  }

  function WithSubs(c: Catalog, p: Path, s: seq<Key>): Catalog {
    c.(subs := c.subs[p := s])
  }

  function Parent(p: Path): Path
    requires p != []
  {
    p[..|p| - 1]
  }

  function Last(p: Path): Key
    requires p != []
  {
    p[|p| - 1]
  }

  // ---------------------------------------------------------------- the invariant

  ghost predicate ListsHold(e: map<Slot, Value>, c: Catalog) {
    forall p ::
      && Represents(View(e, p, KeyList), KeysAt(c, p))
      && Represents(View(e, p, SubNsList), SubsAt(c, p))
  }

  /**
   * A namespace is in its parent's child list iff it has a key or a listed child of its own. The
   * namespaces in pending are listed although they may be empty: an operation on them is under way.
   */
  ghost predicate Registered(c: Catalog, pending: set<Path>) {
    && (forall p :: Distinct(KeysAt(c, p)) && Distinct(SubsAt(c, p)))
    && (forall p {:trigger Occupied(c, p)} | p != [] ::
          Last(p) in SubsAt(c, Parent(p)) <==> Occupied(c, p) || p in pending)
  }

  ghost predicate KeysLive(e: map<Slot, Value>, c: Catalog) {
    forall p, k :: k in KeysAt(c, p) <==> Slot(p, User, k) in e
  }

  ghost predicate IsCatalog(e: map<Slot, Value>, c: Catalog) {
    ListsHold(e, c) && Registered(c, {}) && KeysLive(e, c)
  }

  // ---------------------------------------------------------------- creation

  /** The effect of announcing a namespace to its ancestors, up to the first one that is occupied. */
  function Announce(c: Catalog, p: Path): Catalog
    decreases |p|
  {
    if Occupied(c, p) || p == [] then c
    else
      var c1 := Announce(c, Parent(p));
      WithSubs(c1, Parent(p), SubsAt(c1, Parent(p)) + [Last(p)])
  }

  function AddKey(c: Catalog, p: Path, k: Key): Catalog {
    WithKeys(Announce(c, p), p, KeysAt(c, p) + [k])
  }

  lemma {:induction false} AnnounceChanges(c: Catalog, p: Path, q: Path)
    ensures Announce(c, p).keys == c.keys
    ensures SubsAt(Announce(c, p), q) == SubsAt(c, q) ||
            (|q| < |p| && q == p[..|q|] && SubsAt(Announce(c, p), q) == SubsAt(c, q) + [p[|q|]])
    decreases |p|
  {
    if !Occupied(c, p) && p != [] {
      AnnounceChanges(c, Parent(p), q);
    }
  }

  lemma ParentLast(p: Path, r: Path)
    requires p != [] && r != []
    ensures Parent(r) == Parent(p) && Last(r) == Last(p) ==> r == p
  {
    assert r == Parent(r) + [Last(r)] && p == Parent(p) + [Last(p)];
  }

  /** Listing an empty namespace moves the one pending place down from its parent to it. */
  lemma ListChild(c: Catalog, p: Path)
    requires p != [] && Registered(c, {Parent(p)}) && !Occupied(c, p)
    requires Last(p) !in SubsAt(c, Parent(p))
    ensures Registered(WithSubs(c, Parent(p), SubsAt(c, Parent(p)) + [Last(p)]), {p})
  {
    hide Distinct;
    var q := Parent(p);
    var c' := WithSubs(c, q, SubsAt(c, q) + [Last(p)]);
    DistinctAppend(SubsAt(c, q), Last(p));
    forall r ensures Distinct(KeysAt(c', r)) && Distinct(SubsAt(c', r)) {
      assert Distinct(KeysAt(c, r)) && Distinct(SubsAt(c, r));
    }
    forall r | r != [] ensures Last(r) in SubsAt(c', Parent(r)) <==> Occupied(c', r) || r in {p} {
      assert Last(r) in SubsAt(c, Parent(r)) <==> Occupied(c, r) || r == q;
      ParentLast(p, r);
    }
  }

  /** Unlisting an empty namespace moves the one pending place up to its parent. */
  lemma UnlistChild(c: Catalog, p: Path)
    requires p != [] && Registered(c, {p}) && !Occupied(c, p)
    requires Last(p) in SubsAt(c, Parent(p))
    ensures Registered(WithSubs(c, Parent(p), Without(SubsAt(c, Parent(p)), Last(p))), {Parent(p)})
  {
    var q := Parent(p);
    var s := Without(SubsAt(c, q), Last(p));
    var c' := WithSubs(c, q, s);
    WithoutMembers(SubsAt(c, q), Last(p));
    hide Distinct, Without;
    forall r ensures Distinct(KeysAt(c', r)) && Distinct(SubsAt(c', r)) {
      assert Distinct(KeysAt(c, r)) && Distinct(SubsAt(c, r));
    }
    forall r | r != [] ensures Last(r) in SubsAt(c', Parent(r)) <==> Occupied(c', r) || r in {q} {
      assert Last(r) in SubsAt(c, Parent(r)) <==> Occupied(c, r) || r == p;
      ParentLast(p, r);
    }
  }

  lemma {:induction false} AnnounceRegisters(c: Catalog, p: Path)
    requires Registered(c, {})
    ensures Registered(Announce(c, p), {p})
    decreases |p|
  {
    if !Occupied(c, p) && p != [] {
      AnnounceRegisters(c, Parent(p));
      AnnounceChanges(c, Parent(p), Parent(p));
      AnnounceChanges(c, Parent(p), p);
      hide Distinct;
      ListChild(Announce(c, Parent(p)), p);
    }
  }

  // ---------------------------------------------------------------- deletion

  /** The effect of unlisting a namespace that may have become empty, up to the first occupied ancestor. */
  function Retire(c: Catalog, p: Path): Catalog
    decreases |p|
  {
    if Occupied(c, p) || p == [] || Last(p) !in SubsAt(c, Parent(p)) then c
    else Retire(WithSubs(c, Parent(p), Without(SubsAt(c, Parent(p)), Last(p))), Parent(p))
  }

  function RemoveKey(c: Catalog, p: Path, k: Key): Catalog
    requires k in KeysAt(c, p)
  {
    Retire(WithKeys(c, p, Without(KeysAt(c, p), k)), p)
  }

  /** Every item that retiring p takes out of a child list has neighbours that count as true. */
  predicate CanRetire(c: Catalog, p: Path)
    decreases |p|
  {
    if Occupied(c, p) || p == [] || Last(p) !in SubsAt(c, Parent(p)) then true
    else
      var s := SubsAt(c, Parent(p));
      && NeighboursTruthy(s, IndexOf(s, Last(p)))
      && CanRetire(WithSubs(c, Parent(p), Without(s, Last(p))), Parent(p))
  }

  predicate CanRemove(c: Catalog, p: Path, k: Key)
    requires k in KeysAt(c, p)
  {
    var s := KeysAt(c, p);
    NeighboursTruthy(s, IndexOf(s, k)) && CanRetire(WithKeys(c, p, Without(s, k)), p)
  }

  lemma {:induction false} RetireChanges(c: Catalog, p: Path, q: Path)
    ensures Retire(c, p).keys == c.keys
    ensures SubsAt(Retire(c, p), q) == SubsAt(c, q) ||
            (|q| < |p| && q == p[..|q|] && p[|q|] in SubsAt(c, q) &&
             SubsAt(Retire(c, p), q) == Without(SubsAt(c, q), p[|q|]))
    decreases |p|
  {
    hide Without;
    if !(Occupied(c, p) || p == [] || Last(p) !in SubsAt(c, Parent(p))) {
      var c1 := WithSubs(c, Parent(p), Without(SubsAt(c, Parent(p)), Last(p)));
      RetireChanges(c1, Parent(p), q);
    }
  }

  lemma {:induction false} RetireRegisters(c: Catalog, p: Path)
    requires Registered(c, {p})
    ensures Registered(Retire(c, p), {})
    decreases |p|
  {
    hide Distinct, Without;
    if !Occupied(c, p) && p != [] {
      assert Last(p) in SubsAt(c, Parent(p));
      UnlistChild(c, p);
      RetireRegisters(WithSubs(c, Parent(p), Without(SubsAt(c, Parent(p)), Last(p))), Parent(p));
    }
  }

  // ---------------------------------------------------------------- whole operations

  lemma KeysGrow(c: Catalog, p: Path, s: seq<Key>)
    requires Registered(c, {p}) && Distinct(s) && s != []
    ensures Registered(WithKeys(c, p, s), {})
  {
    hide Distinct;
    var c' := WithKeys(c, p, s);
    forall r ensures Distinct(KeysAt(c', r)) && Distinct(SubsAt(c', r)) {
      assert Distinct(KeysAt(c, r)) && Distinct(SubsAt(c, r));
    }
    forall r | r != [] ensures Last(r) in SubsAt(c', Parent(r)) <==> Occupied(c', r) || r in {} {
      assert Last(r) in SubsAt(c, Parent(r)) <==> Occupied(c, r) || r == p;
    }
  }

  lemma KeysShrink(c: Catalog, p: Path, s: seq<Key>)
    requires Registered(c, {}) && Distinct(s) && Occupied(c, p)
    ensures Registered(WithKeys(c, p, s), {p})
  {
    hide Distinct;
    var c' := WithKeys(c, p, s);
    forall r ensures Distinct(KeysAt(c', r)) && Distinct(SubsAt(c', r)) {
      assert Distinct(KeysAt(c, r)) && Distinct(SubsAt(c, r));
    }
    forall r | r != [] ensures Last(r) in SubsAt(c', Parent(r)) <==> Occupied(c', r) || r in {p} {
      assert Last(r) in SubsAt(c, Parent(r)) <==> Occupied(c, r);
    }
  }

  lemma AddKeyRegisters(c: Catalog, p: Path, k: Key)
    requires Registered(c, {}) && k !in KeysAt(c, p)
    ensures Registered(AddKey(c, p, k), {})
  {
    AnnounceRegisters(c, p);
    AnnounceChanges(c, p, p);
    DistinctAppend(KeysAt(c, p), k);
    KeysGrow(Announce(c, p), p, KeysAt(c, p) + [k]);
  }

  lemma RemoveKeyRegisters(c: Catalog, p: Path, k: Key)
    requires Registered(c, {}) && k in KeysAt(c, p)
    ensures Registered(RemoveKey(c, p, k), {})
  {
    WithoutMembers(KeysAt(c, p), k);
    KeysShrink(c, p, Without(KeysAt(c, p), k));
    RetireRegisters(WithKeys(c, p, Without(KeysAt(c, p), k)), p);
  }

  /** A new key comes last in its namespace; other key lists stay, a child list gains at most one name at its end. */
  lemma AddKeyChanges(c: Catalog, p: Path, k: Key, q: Path)
    ensures KeysAt(AddKey(c, p, k), q) == if q == p then KeysAt(c, p) + [k] else KeysAt(c, q)
    ensures SubsAt(AddKey(c, p, k), q) == SubsAt(c, q) ||
            (|q| < |p| && q == p[..|q|] && SubsAt(AddKey(c, p, k), q) == SubsAt(c, q) + [p[|q|]])
  {
    AnnounceChanges(c, p, q);
  }

  /** The other keys and names stay in order, and only child lists above the namespace lose a name. */
  lemma RemoveKeyChanges(c: Catalog, p: Path, k: Key, q: Path)
    requires k in KeysAt(c, p)
    ensures KeysAt(RemoveKey(c, p, k), q) == if q == p then Without(KeysAt(c, p), k) else KeysAt(c, q)
    ensures SubsAt(RemoveKey(c, p, k), q) == SubsAt(c, q) ||
            (|q| < |p| && q == p[..|q|] && p[|q|] in SubsAt(c, q) &&
             SubsAt(RemoveKey(c, p, k), q) == Without(SubsAt(c, q), p[|q|]))
  {
    hide Without;
    RetireChanges(WithKeys(c, p, Without(KeysAt(c, p), k)), p, q);
  }

  // ---------------------------------------------------------------- what the catalog says

  lemma {:induction false} Deepest(ps: set<Path>) returns (n: nat)
    ensures forall p | p in ps :: |p| <= n
  {
    if ps == {} {
      n := 0;
    } else {
      var p :| p in ps;
      n := Deepest(ps - {p});
      n := if |p| > n then |p| else n;
    }
  }

  lemma {:induction false} Descend(c: Catalog, p: Path, depth: nat) returns (q: Path)
    requires Registered(c, {}) && Occupied(c, p)
    requires forall r | Occupied(c, r) :: |r| <= depth
    ensures p <= q && KeysAt(c, q) != []
    decreases depth - |p|
  {
    if KeysAt(c, p) != [] {
      q := p;
    } else {
      var r := p + [SubsAt(c, p)[0]];
      assert Parent(r) == p && Last(r) == SubsAt(c, p)[0];
      assert Occupied(c, r);
      q := Descend(c, r, depth);
    }
  }

  lemma {:induction false} Climb(c: Catalog, p: Path, q: Path)
    requires Registered(c, {}) && Occupied(c, q) && p <= q && p != []
    ensures Last(p) in SubsAt(c, Parent(p))
    decreases |q|
  {
    if p == q {
      assert Occupied(c, p);
    } else {
      assert Occupied(c, q);
      Climb(c, p, Parent(q));
    }
  }

  /**
   * The child list of p names n exactly when some namespace at or below p + [n] has a key: creation and
   * deletion reach exactly as far up the tree as needed.
   */
  lemma ListedIffKeyBelow(c: Catalog, p: Path, n: Key)
    requires Registered(c, {})
    ensures n in SubsAt(c, p) <==> exists q :: p + [n] <= q && KeysAt(c, q) != []
  {
    var child := p + [n];
    assert Parent(child) == p && Last(child) == n;
    if n in SubsAt(c, p) {
      assert Occupied(c, child);
      var depth := Deepest(c.keys.Keys + c.subs.Keys);
      forall r | Occupied(c, r) ensures |r| <= depth { assert r in c.keys.Keys + c.subs.Keys; }
      var q := Descend(c, child, depth);
    }
    if q :| child <= q && KeysAt(c, q) != [] {
      Climb(c, child, q);
    }
  }

  /** The same in terms of the user entries of the flat database alone. */
  lemma ListedIffEntryBelow(e: map<Slot, Value>, c: Catalog, p: Path, n: Key)
    requires IsCatalog(e, c)
    ensures n in SubsAt(c, p) <==> exists s :: s in e && s.space == User && p + [n] <= s.path
  {
    hide ListsHold;
    ListedIffKeyBelow(c, p, n);
    if q :| p + [n] <= q && KeysAt(c, q) != [] {
      var k := KeysAt(c, q)[0];
      assert k in KeysAt(c, q);
      assert Slot(q, User, k) in e && p + [n] <= Slot(q, User, k).path;
    }
    if s :| s in e && s.space == User && p + [n] <= s.path {
      assert Slot(s.path, User, s.key) == s;
      assert s.key in KeysAt(c, s.path);
    }
  }

  // ---------------------------------------------------------------- runs

  datatype Op = Set(path: Path, key: Key, value: Value) | Delete(path: Path, key: Key)

  /** Setting a key that exists and deleting one that does not leave the catalog alone. */
  function Apply(c: Catalog, op: Op): Catalog {
    if op.Set? && op.key !in KeysAt(c, op.path) then AddKey(c, op.path, op.key)
    else if op.Delete? && op.key in KeysAt(c, op.path) then RemoveKey(c, op.path, op.key)
    else c
  }

  function Run(ops: seq<Op>): Catalog {
    if ops == [] then EMPTY else Apply(Run(ops[..|ops| - 1]), ops[|ops| - 1])
  }

  predicate CanApply(c: Catalog, op: Op) {
    op.Delete? && op.key in KeysAt(c, op.path) ==> CanRemove(c, op.path, op.key)
  }

  /** Every deletion of the run can be done cleanly when its turn comes. */
  predicate CanRun(ops: seq<Op>) {
    ops == [] || (CanRun(ops[..|ops| - 1]) && CanApply(Run(ops[..|ops| - 1]), ops[|ops| - 1]))
  }

  lemma RunOneMore(before: seq<Op>, op: Op)
    ensures Run(before + [op]) == Apply(Run(before), op)
    ensures CanRun(before + [op]) <==> CanRun(before) && CanApply(Run(before), op)
  {
    assert (before + [op])[..|before|] == before;
  }

  /** The value a run leaves under a key: that of the last operation on it, if it was a set. */
  function Stored(ops: seq<Op>, p: Path, k: Key): Option<Value> {
    if ops == [] then None
    else
      var op := ops[|ops| - 1];
      if op.path != p || op.key != k then Stored(ops[..|ops| - 1], p, k)
      else if op.Set? then Some(op.value)
      else None
  }

  predicate TruthyOps(ops: seq<Op>) {
    forall i | 0 <= i < |ops| :: Truthy(ops[i].key) && AllTruthy(ops[i].path)
  }

  ghost predicate TruthyLists(c: Catalog) {
    forall p :: AllTruthy(KeysAt(c, p)) && AllTruthy(SubsAt(c, p))
  }

  lemma TruthyLists1(c: Catalog, p: Path, n: Key)
    requires TruthyLists(c) && n in SubsAt(c, p)
    ensures TruthyLists(WithSubs(c, p, Without(SubsAt(c, p), n)))
  {
    var c' := WithSubs(c, p, Without(SubsAt(c, p), n));
    assert AllTruthy(SubsAt(c, p));
    forall q ensures AllTruthy(KeysAt(c', q)) && AllTruthy(SubsAt(c', q)) {
      assert AllTruthy(KeysAt(c, q)) && AllTruthy(SubsAt(c, q));
    }
  }

  lemma {:induction false} TruthyCanRetire(c: Catalog, p: Path)
    requires TruthyLists(c)
    ensures CanRetire(c, p)
    decreases |p|
  {
    if !(Occupied(c, p) || p == [] || Last(p) !in SubsAt(c, Parent(p))) {
      TruthyLists1(c, Parent(p), Last(p));
      TruthyCanRetire(WithSubs(c, Parent(p), Without(SubsAt(c, Parent(p)), Last(p))), Parent(p));
    }
  }

  lemma ApplyKeeps(c: Catalog, op: Op)
    requires Registered(c, {}) && TruthyLists(c) && Truthy(op.key) && AllTruthy(op.path)
    ensures Registered(Apply(c, op), {}) && TruthyLists(Apply(c, op))
  {
    var p, k := op.path, op.key;
    var c' := Apply(c, op);
    if op.Set? && k !in KeysAt(c, p) {
      AddKeyRegisters(c, p, k);
    } else if op.Delete? && k in KeysAt(c, p) {
      RemoveKeyRegisters(c, p, k);
    }
    hide Registered, AddKey, RemoveKey;
    forall q ensures AllTruthy(KeysAt(c', q)) && AllTruthy(SubsAt(c', q)) {
      assert AllTruthy(KeysAt(c, q)) && AllTruthy(SubsAt(c, q));
      if op.Set? && k !in KeysAt(c, p) {
        AddKeyChanges(c, p, k, q);
      } else if op.Delete? && k in KeysAt(c, p) {
        RemoveKeyChanges(c, p, k, q);
      }
    }
  }

  /** After any run of operations on truthy keys and path components, any live key can be removed. */
  lemma {:induction false} RunsStayRegistered(ops: seq<Op>)
    requires TruthyOps(ops)
    ensures Registered(Run(ops), {}) && TruthyLists(Run(ops))
    ensures forall p, k | k in KeysAt(Run(ops), p) :: CanRemove(Run(ops), p, k)
  {
    if ops == [] {
      assert forall p :: KeysAt(EMPTY, p) == [] && SubsAt(EMPTY, p) == [];
    } else {
      var before, op := ops[..|ops| - 1], ops[|ops| - 1];
      RunsStayRegistered(before);
      ApplyKeeps(Run(before), op);
    }
    var c := Run(ops);
    forall p, k | k in KeysAt(c, p) ensures CanRemove(c, p, k) {
      var c1 := WithKeys(c, p, Without(KeysAt(c, p), k));
      assert AllTruthy(KeysAt(c, p));
      forall q ensures AllTruthy(KeysAt(c1, q)) && AllTruthy(SubsAt(c1, q)) {
        assert AllTruthy(KeysAt(c, q)) && AllTruthy(SubsAt(c, q));
      }
      TruthyCanRetire(c1, p);
    }
  }

  lemma {:induction false} TruthyOpsCanRun(ops: seq<Op>)
    requires TruthyOps(ops)
    ensures CanRun(ops)
  {
    if ops != [] {
      var before := ops[..|ops| - 1];
      TruthyOpsCanRun(before);
      RunsStayRegistered(before);
      hide CanRemove;
    }
  }

  lemma {:induction false} CanRunPrefix(ops: seq<Op>, n: nat)
    requires CanRun(ops) && n <= |ops|
    ensures CanRun(ops[..n])
    decreases |ops| - n
  {
    hide CanApply;
    if n < |ops| {
      CanRunPrefix(ops, n + 1);
      assert ops[..n + 1][..n] == ops[..n];
    } else {
      assert ops[..n] == ops;
    }
  }

  lemma EmptyIsCatalog()
    ensures IsCatalog(map[], Run([]))
  {
    forall p ensures View(map[], p, KeyList) == map[] && View(map[], p, SubNsList) == map[] {}
    assert forall p :: KeysAt(EMPTY, p) == [] && SubsAt(EMPTY, p) == [];
  }

  /** The keys of one namespace in the order they were created, from the operations on that namespace alone. */
  function CreationOrder(ops: seq<Op>, p: Path): seq<Key> {
    if ops == [] then []
    else
      var before, op := CreationOrder(ops[..|ops| - 1], p), ops[|ops| - 1];
      if op.path != p then before
      else if op.Set? && op.key !in before then before + [op.key]
      else if op.Delete? && op.key in before then Without(before, op.key)
      else before
  }

  /** No operation on one namespace touches the key list of another. */
  lemma {:induction false} KeysInCreationOrder(ops: seq<Op>, p: Path)
    ensures KeysAt(Run(ops), p) == CreationOrder(ops, p)
  {
    if ops != [] {
      var before, op := Run(ops[..|ops| - 1]), ops[|ops| - 1];
      KeysInCreationOrder(ops[..|ops| - 1], p);
      hide AddKey, RemoveKey, Without;
      if op.Set? && op.key !in KeysAt(before, op.path) {
        AddKeyChanges(before, op.path, op.key, p);
      } else if op.Delete? && op.key in KeysAt(before, op.path) {
        RemoveKeyChanges(before, op.path, op.key, p);
      }
    }
  }

  /** With the keys 'a' and 0 in one namespace, deleting 'a' cannot be done cleanly: its neighbour 0 counts as false. */
  lemma ZeroKeyBreaksRemoval(value: Value)
    ensures var a := Str(['a' as int]);
            var c := Run([Set([], a, value), Set([], Int(0), value)]);
            KeysAt(c, []) == [a, Int(0)] && !CanRemove(c, [], a)
  {
    var a := Str(['a' as int]);
    var ops := [Set([], a, value), Set([], Int(0), value)];
    assert ops[..1] == [ops[0]] && [ops[0]][..0] == [];
    KeysInCreationOrder([], []);
    KeysInCreationOrder([ops[0]], []);
    KeysInCreationOrder(ops, []);
    assert CreationOrder([ops[0]], []) == [a];
    assert CreationOrder(ops, []) == [a, Int(0)];
  }

  // ---------------------------------------------------------------- in terms of values alone

  /** No key and no path component is None, zero, the empty string or the empty tuple. */
  ghost predicate PlainOps(ops: seq<Op>) {
    forall i | 0 <= i < |ops| ::
      && ops[i].key !in {NoneKey, Int(0), Str([]), Tuple([])}
      && forall n | n in ops[i].path :: n !in {NoneKey, Int(0), Str([]), Tuple([])}
  }

  lemma PlainOpsCanRun(ops: seq<Op>)
    requires PlainOps(ops)
    ensures CanRun(ops)
  {
    forall i | 0 <= i < |ops| ensures Truthy(ops[i].key) && AllTruthy(ops[i].path) {
      FalseKeys(ops[i].key);
      PlainIsTruthy(ops[i].path);
    }
    TruthyOpsCanRun(ops);
  }

  /** Unless the namespace becomes empty, a key can be removed cleanly exactly if neither neighbour is a false value. */
  lemma CanRemoveIff(c: Catalog, p: Path, j: nat)
    requires Registered(c, {}) && j < |KeysAt(c, p)| && (p == [] || |KeysAt(c, p)| > 1 || SubsAt(c, p) != [])
    ensures var s := KeysAt(c, p);
            CanRemove(c, p, s[j]) <==>
              && (j > 0 ==> s[j - 1] !in {NoneKey, Int(0), Str([]), Tuple([])})
              && (j + 1 < |s| ==> s[j + 1] !in {NoneKey, Int(0), Str([]), Tuple([])})
  {
    var s := KeysAt(c, p);
    assert Distinct(s);
    IndexOfAt(s, j);
    hide Truthy, Registered;
    if j > 0 { FalseKeys(s[j - 1]); }
    if j + 1 < |s| { FalseKeys(s[j + 1]); }
    var c' := WithKeys(c, p, Without(s, s[j]));
    assert p == [] || Occupied(c', p);
    assert CanRetire(c', p);
  }
}
