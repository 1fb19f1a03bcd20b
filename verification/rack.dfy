/** Racks: namespaces of one flat database that keep themselves listed in their parents. */
module Racks {
  import opened Basics
  import opened Keys
  import opened FlatDb
  import opened LinkedLists
  import opened Catalogs
  import KeyPickler

  // ---------------------------------------------------------------- flat keys

  function SpaceKey(space: Space): Key {
    match space
    case User => NoneKey
    case KeyList => Int(1)
    case SubNsList => Int(2)
  }

  /** The object a rack pickles to form the flat key of a slot. */
  function FlatKey(s: Slot): Key {
    Tuple([Tuple(s.path), SpaceKey(s.space), s.key])
  }

  /** The tuple that is pickled: the path, None or 1 or 2 for the space, and the key. */
  lemma FlatKeyIs(p: Path, k: Key)
    ensures FlatKey(Slot(p, User, k)) == Tuple([Tuple(p), NoneKey, k])
    ensures FlatKey(Slot(p, KeyList, k)) == Tuple([Tuple(p), Int(1), k])
    ensures FlatKey(Slot(p, SubNsList, k)) == Tuple([Tuple(p), Int(2), k])
  {
  }

  /** Two slots never share a flat key, so the flat database can be read as a map from slots. */
  lemma SlotsDoNotCollide(s: Slot, t: Slot)
    requires KeyPickler.Dumps(FlatKey(s)).Some? && KeyPickler.Dumps(FlatKey(s)) == KeyPickler.Dumps(FlatKey(t))
    ensures s == t
  {
    KeyPickler.PrefixFree(FlatKey(s), FlatKey(t), [], []);
    var a, b := FlatKey(s).items, FlatKey(t).items;
    assert a[0] == b[0] && a[1] == b[1] && a[2] == b[2];
  }

  // ---------------------------------------------------------------- lists in the flat database

  lemma ListChanged(e: map<Slot, Value>, e': map<Slot, Value>, c: Catalog, p: Path, space: Space, s: seq<Key>)
    requires ListsHold(e, c) && SameElsewhere(e, e', p, space) && space != User
    requires Represents(View(e', p, space), s)
    ensures ListsHold(e', if space == KeyList then WithKeys(c, p, s) else WithSubs(c, p, s))
  {
    hide Represents, View, SameElsewhere;
    var c' := if space == KeyList then WithKeys(c, p, s) else WithSubs(c, p, s);
    forall q
      ensures Represents(View(e', q, KeyList), KeysAt(c', q)) && Represents(View(e', q, SubNsList), SubsAt(c', q))
    {
      assert Represents(View(e, q, KeyList), KeysAt(c, q)) && Represents(View(e, q, SubNsList), SubsAt(c, q));
      if q != p || space != KeyList { ViewElsewhere(e, e', p, space, q, KeyList); }
      if q != p || space != SubNsList { ViewElsewhere(e, e', p, space, q, SubNsList); }
    }
  }

  lemma ListsUnmoved(e: map<Slot, Value>, e': map<Slot, Value>, c: Catalog, p: Path)
    requires ListsHold(e, c) && SameElsewhere(e, e', p, User)
    ensures ListsHold(e', c)
  {
    hide Represents, View, SameElsewhere;
    forall q
      ensures Represents(View(e', q, KeyList), KeysAt(c, q)) && Represents(View(e', q, SubNsList), SubsAt(c, q))
    {
      assert Represents(View(e, q, KeyList), KeysAt(c, q)) && Represents(View(e, q, SubNsList), SubsAt(c, q));
      ViewElsewhere(e, e', p, User, q, KeyList);
      ViewElsewhere(e, e', p, User, q, SubNsList);
    }
  }

  ghost predicate SameUserEntries(e: map<Slot, Value>, e': map<Slot, Value>) {
    forall s: Slot | s.space == User :: (s in e <==> s in e') && (s in e ==> e[s] == e'[s])
  }

  /** No catalog at all describes the lists of e. */
  ghost predicate ListsBroken(e: map<Slot, Value>) {
    forall c :: !ListsHold(e, c)
  }

  lemma BrokenList(e: map<Slot, Value>, p: Path, space: Space)
    requires space != User && forall s :: !Represents(View(e, p, space), s)
    ensures ListsBroken(e)
  {
    hide Represents, View;
    forall c ensures !ListsHold(e, c) {
      var s := if space == KeyList then KeysAt(c, p) else SubsAt(c, p);
      assert ListsHold(e, c) ==> Represents(View(e, p, space), s);
    }
  }

  lemma ListLength(e: map<Slot, Value>, c: Catalog, p: Path)
    requires ListsHold(e, c)
    ensures Length(View(e, p, KeyList)) == |KeysAt(c, p)|
    ensures Length(View(e, p, SubNsList)) == |SubsAt(c, p)|
  {
    hide Represents, View;
    RepresentsUnique(View(e, p, KeyList), KeysAt(c, p), KeysAt(c, p));
    RepresentsUnique(View(e, p, SubNsList), SubsAt(c, p), SubsAt(c, p));
  }

  /** No user entry of p is left, and all others are as they were. */
  ghost predicate Cleared(e: map<Slot, Value>, e': map<Slot, Value>, p: Path) {
    forall s: Slot | s.space == User ::
      (s in e' <==> s in e && s.path != p) && (s in e' ==> e'[s] == e[s])
  }

  lemma ClearedKeysLive(e: map<Slot, Value>, e': map<Slot, Value>, c: Catalog, p: Path)
    requires KeysLive(e, c) && Cleared(e, e', p)
    ensures KeysLive(e', Retire(WithKeys(c, p, []), p))
  {
    hide Retire;
    var c1 := WithKeys(c, p, []);
    RetireChanges(c1, p, p);
    forall q, k ensures k in KeysAt(Retire(c1, p), q) <==> Slot(q, User, k) in e' {
      assert k in KeysAt(c, q) <==> Slot(q, User, k) in e;
    }
  }

  /** Some entry of the slots given lies in the namespace q itself. */
  ghost predicate EntryAt(slots: set<Slot>, q: Path) {
    exists s :: s in slots && s.path == q
  }

  lemma EntryAtOneMore(slots: set<Slot>, s: Slot, p: Path)
    ensures forall n :: EntryAt(slots + {s}, p + [n]) <==> EntryAt(slots, p + [n]) || s.path == p + [n]
    ensures |s.path| > |p| && s.path[..|s.path| - 1] == p ==> s.path == p + [s.path[|p|]]
    ensures forall n :: s.path == p + [n] ==> |s.path| > |p| && s.path[..|s.path| - 1] == p && s.path[|p|] == n
  {
    forall n ensures EntryAt(slots + {s}, p + [n]) <==> EntryAt(slots, p + [n]) || s.path == p + [n] {
      if EntryAt(slots, p + [n]) {
        var t :| t in slots && t.path == p + [n];
        assert t in slots + {s};
      }
      if s.path == p + [n] { assert s in slots + {s}; }
    }
    if |s.path| > |p| && s.path[..|s.path| - 1] == p {
      assert s.path == s.path[..|s.path| - 1] + [s.path[|p|]];
    }
  }

  /**
   * What reindex achieves, whatever the two lists held before: the key list has exactly the live keys,
   * the child list exactly the children that hold any entry, and no other entry has changed.
   */
  ghost predicate Reindexed(e: map<Slot, Value>, e': map<Slot, Value>, p: Path, keys: seq<Key>, subs: seq<Key>) {
    && Represents(View(e', p, KeyList), keys)
    && Represents(View(e', p, SubNsList), subs)
    && (forall k :: k in keys <==> Slot(p, User, k) in e)
    && (forall n :: n in subs <==> EntryAt(e.Keys, p + [n]))
    && (forall s: Slot | s.path != p || s.space == User :: (s in e <==> s in e') && (s in e ==> e[s] == e'[s]))
  }

  lemma SameAsItself(e: map<Slot, Value>, p: Path, space: Space)
    ensures SameElsewhere(e, e, p, space)
  {
  }

  lemma ElsewhereTransitive(e0: map<Slot, Value>, e1: map<Slot, Value>, e2: map<Slot, Value>, p: Path, space: Space)
    requires SameElsewhere(e0, e1, p, space) && SameElsewhere(e1, e2, p, space)
    ensures SameElsewhere(e0, e2, p, space)
  {
  }

  lemma ElsewhereTwice(e0: map<Slot, Value>, e1: map<Slot, Value>, e2: map<Slot, Value>, e3: map<Slot, Value>, p: Path)
    requires e1.Keys <= e0.Keys && forall s | s in e1 :: e1[s] == e0[s]
    requires forall s | s in e0.Keys - e1.Keys :: s.path == p && s.space != User
    requires SameElsewhere(e1, e2, p, SubNsList) && SameElsewhere(e2, e3, p, KeyList)
    ensures forall s: Slot | s.path != p || s.space == User :: (s in e0 <==> s in e3) && (s in e0 ==> e0[s] == e3[s])
  {
  }

  lemma ListsErased(e: map<Slot, Value>, e': map<Slot, Value>, p: Path, slots: set<Slot>)
    requires e' == e - slots
    requires forall s :: s in slots <==> s in e && s.path == p && s.space != User
    ensures Represents(View(e', p, KeyList), []) && Represents(View(e', p, SubNsList), [])
  {
    assert View(e', p, KeyList) == map[] && View(e', p, SubNsList) == map[];
  }

  lemma MembersAfterRemoval(c: Catalog, p: Path, k: Key)
    requires Registered(c, {}) && k in KeysAt(c, p)
    ensures forall q, x :: x in KeysAt(RemoveKey(c, p, k), q) <==> x in KeysAt(c, q) && !(q == p && x == k)
  {
    assert Distinct(KeysAt(c, p));
    WithoutMembers(KeysAt(c, p), k);
    hide Registered, Without;
    forall q, x ensures x in KeysAt(RemoveKey(c, p, k), q) <==> x in KeysAt(c, q) && !(q == p && x == k) {
      RemoveKeyChanges(c, p, k, q);
    }
  }

  lemma PendingIsListed(c: Catalog, p: Path)
    requires Registered(c, {p}) && p != []
    ensures Last(p) in SubsAt(c, Parent(p))
  {
    hide Distinct;
    assert Occupied(c, p) || !Occupied(c, p);
  }

  lemma UnlistedIfEmpty(c: Catalog, p: Path)
    requires Registered(c, {}) && p != [] && !Occupied(c, p)
    ensures Last(p) !in SubsAt(c, Parent(p))
  {
    hide Distinct;
  }

  predicate CanClear(c: Catalog, p: Path) {
    AllTruthy(KeysAt(c, p)) && CanRetire(WithKeys(c, p, []), p)
  }

  lemma ListsOfCatalog(e: map<Slot, Value>, c: Catalog)
    requires IsCatalog(e, c)
    ensures ListsHold(e, c)
  {
  }

  lemma ClearedSoFar(e0: map<Slot, Value>, e1: map<Slot, Value>, e2: map<Slot, Value>, e3: map<Slot, Value>, p: Path)
    requires SameElsewhere(e0, e1, p, User) && forall s: Slot | s.path == p && s.space == User :: s !in e1
    requires SameElsewhere(e1, e2, p, KeyList) && SameUserEntries(e2, e3)
    ensures Cleared(e0, e3, p)
  {
  }

  lemma SameKeys(e: map<Slot, Value>, c: Catalog, p: Path)
    requires ListsHold(e, WithKeys(c, p, KeysAt(c, p)))
    ensures ListsHold(e, c)
  {
    hide Represents, View;
    var c1 := WithKeys(c, p, KeysAt(c, p));
    forall q ensures Represents(View(e, q, KeyList), KeysAt(c, q)) && Represents(View(e, q, SubNsList), SubsAt(c, q)) {
      assert Represents(View(e, q, KeyList), KeysAt(c1, q)) && Represents(View(e, q, SubNsList), SubsAt(c1, q));
    }
  }

  /** A key list with keys that have no entry belongs to no catalog. */
  lemma StaleKeys(e: map<Slot, Value>, c: Catalog, p: Path)
    requires ListsHold(e, c) && KeysAt(c, p) != [] && forall k :: Slot(p, User, k) !in e
    ensures forall c' :: !IsCatalog(e, c')
  {
    hide View, Represents;
    var k := KeysAt(c, p)[0];
    assert k in KeysAt(c, p) && Slot(p, User, k) !in e;
    forall c' ensures !IsCatalog(e, c') {
      if ListsHold(e, c') { RepresentsUnique(View(e, p, KeyList), KeysAt(c, p), KeysAt(c', p)); }
    }
  }

  /** From what the steps of a clear leave in each case to whether there is a catalog. */
  lemma ClearLeaves(e: map<Slot, Value>, e': map<Slot, Value>, c: Catalog, p: Path)
    requires IsCatalog(e, c) && Cleared(e, e', p) && Registered(Retire(WithKeys(c, p, []), p), {})
    requires CanClear(c, p) ==> ListsHold(e', Retire(WithKeys(c, p, []), p))
    requires !CanClear(c, p) ==> ListsBroken(e') || (ListsHold(e', c) && KeysAt(c, p) != [])
    ensures CanClear(c, p) ==> IsCatalog(e', Retire(WithKeys(c, p, []), p))
    ensures !CanClear(c, p) ==> forall c' :: !IsCatalog(e', c')
  {
    hide ListsHold, Registered, KeysLive, Retire, CanClear, KeysAt, WithKeys;
    ClearedKeysLive(e, e', c, p);
    if !CanClear(c, p) && !ListsBroken(e') {
      assert forall k :: Slot(p, User, k) !in e' by { assert forall k :: Slot(p, User, k).path == p; }
      StaleKeys(e', c, p);
    }
  }

  lemma CanClearMeans(c: Catalog, p: Path)
    ensures CanClear(c, p) <==> AllTruthy(KeysAt(c, p)) && CanRetire(WithKeys(c, p, []), p)
    ensures !AllTruthy(KeysAt(c, p)) ==> KeysAt(c, p) != []
  {
    hide CanRetire;
  }

  lemma UserEntriesKept(e0: map<Slot, Value>, e1: map<Slot, Value>, e2: map<Slot, Value>, p: Path, space: Space)
    requires SameElsewhere(e0, e1, p, space) && space != User && SameUserEntries(e1, e2)
    ensures SameUserEntries(e0, e2)
  {
  }

  lemma RetireStep(c: Catalog, p: Path)
    requires p != [] && !Occupied(c, p) && Last(p) in SubsAt(c, Parent(p))
    ensures var s := SubsAt(c, Parent(p));
            var c' := WithSubs(c, Parent(p), Without(s, Last(p)));
            && Retire(c, p) == Retire(c', Parent(p))
            && (CanRetire(c, p) <==> NeighboursTruthy(s, IndexOf(s, Last(p))) && CanRetire(c', Parent(p)))
  {
    hide Without, NeighboursTruthy;
  }

  lemma RemovalStep(c: Catalog, p: Path, k: Key)
    requires Registered(c, {}) && k in KeysAt(c, p)
    ensures var s := KeysAt(c, p);
            var c' := WithKeys(c, p, Without(s, k));
            && Registered(c', {p}) && RemoveKey(c, p, k) == Retire(c', p)
            && (CanRemove(c, p, k) <==> NeighboursTruthy(s, IndexOf(s, k)) && CanRetire(c', p))
  {
    assert Distinct(KeysAt(c, p));
    WithoutMembers(KeysAt(c, p), k);
    hide Registered, Without, NeighboursTruthy, CanRetire, Retire;
    KeysShrink(c, p, Without(KeysAt(c, p), k));
  }

  /** What a scan of some slots should have collected for the namespace p. */
  ghost predicate Scanned(done: set<Slot>, p: Path, keyList: seq<Key>, subNsList: seq<Key>, internalKeys: set<Slot>) {
    && Distinct(keyList) && (forall k :: k in keyList <==> Slot(p, User, k) in done)
    && Distinct(subNsList) && (forall n :: n in subNsList <==> EntryAt(done, p + [n]))
    && (forall s :: s in internalKeys <==> s in done && s.path == p && s.space != User)
  }

  lemma ScannedOneMore(done: set<Slot>, s: Slot, p: Path,
                       keyList: seq<Key>, subNsList: seq<Key>, internalKeys: set<Slot>)
    requires Scanned(done, p, keyList, subNsList, internalKeys)
    ensures var isChild := |s.path| > |p| && s.path[..|s.path| - 1] == p;
            Scanned(done + {s}, p,
                    if s.path == p && s.space == User && s.key !in keyList then keyList + [s.key] else keyList,
                    if isChild && s.path[|p|] !in subNsList then subNsList + [s.path[|p|]] else subNsList,
                    if s.path == p && s.space != User then internalKeys + {s} else internalKeys)
  {
    EntryAtOneMore(done, s, p);
    if s.key !in keyList { DistinctAppend(keyList, s.key); }
    if |s.path| > |p| && s.path[|p|] !in subNsList { DistinctAppend(subNsList, s.path[|p|]); }
    hide EntryAt, Distinct;
  }

  class Rack {
    const db: Db
    const path: Path

    constructor (db: Db, path: Path)
      ensures this.db == db && this.path == path
    {
      this.db, this.path := db, path;
    }

    method GetList(space: Space) returns (list: LinkedList)
      requires space != User
      ensures list.db.db == db && list.db.path == path && list.db.space == space
    {
      var internal := new InternalRack(db, path, space);
      list := new LinkedList(internal);
    }

    /** Whether this namespace has neither keys nor listed children. */
    method BothListsEmpty() returns (empty: bool)
      ensures empty <==> Length(View(db.entries, path, KeyList)) == 0 && Length(View(db.entries, path, SubNsList)) == 0
    {
      var keys := GetList(KeyList);
      var nKeys := keys.Len();
      var subs := GetList(SubNsList);
      var nSubs := subs.Len();
      empty := nKeys == 0 && nSubs == 0;
    }

    method TestKeySubNsAdd(ghost c: Catalog)
      requires ListsHold(db.entries, c) && Registered(c, {})
      modifies db
      ensures ListsHold(db.entries, Announce(c, path))
      ensures SameUserEntries(old(db.entries), db.entries)
      decreases |path|, 0
    {
      hide ListsHold, Registered, View, SameElsewhere;
      ListLength(db.entries, c, path);
      var empty := BothListsEmpty();
      if empty && path != [] {
        var parent := new Rack(db, path[..|path| - 1]);
        UnlistedIfEmpty(c, path);
        parent.NewChild(path[|path| - 1], c);
      }
    }

    /** Appends to one of this namespace's two lists. */
    method AppendTo(space: Space, item: Key, ghost c: Catalog)
      requires ListsHold(db.entries, c) && space != User
      requires item !in if space == KeyList then KeysAt(c, path) else SubsAt(c, path)
      modifies db
      ensures ListsHold(db.entries, if space == KeyList then WithKeys(c, path, KeysAt(c, path) + [item])
                                    else WithSubs(c, path, SubsAt(c, path) + [item]))
      ensures SameElsewhere(old(db.entries), db.entries, path, space)
    {
      hide View, Represents, SameElsewhere;
      ghost var s := if space == KeyList then KeysAt(c, path) else SubsAt(c, path);
      var list := GetList(space);
      assert Represents(list.db.Entries(), s);
      EndsAreItems(list.db.Entries(), s);
      AppendCorrect(list.db.Entries(), s, item);
      list.Append(item);
      ListChanged(old(db.entries), db.entries, c, path, space, s + [item]);
    }

    method NewChild(child: Key, ghost c: Catalog)
      requires ListsHold(db.entries, c) && Registered(c, {}) && child !in SubsAt(c, path)
      modifies db
      ensures ListsHold(db.entries, WithSubs(Announce(c, path), path, SubsAt(Announce(c, path), path) + [child]))
      ensures SameUserEntries(old(db.entries), db.entries)
      decreases |path|, 1
    {
      hide ListsHold, Registered, View, Represents;
      TestKeySubNsAdd(c);
      AnnounceChanges(c, path, path);
      AppendTo(SubNsList, child, Announce(c, path));
    }

    /** Removes from one of this namespace's two lists. */
    method RemoveFrom(space: Space, item: Key, ghost c: Catalog, ghost s: seq<Key>)
      requires ListsHold(db.entries, c) && space != User
      requires s == (if space == KeyList then KeysAt(c, path) else SubsAt(c, path)) && item in s
      modifies db
      ensures NeighboursTruthy(s, IndexOf(s, item)) ==>
                ListsHold(db.entries, if space == KeyList then WithKeys(c, path, Without(s, item))
                                      else WithSubs(c, path, Without(s, item)))
      ensures !NeighboursTruthy(s, IndexOf(s, item)) ==>
                ListsBroken(db.entries) && Length(View(db.entries, path, space)) > 0
      ensures SameElsewhere(old(db.entries), db.entries, path, space)
    {
      hide View, Represents, SameElsewhere, Unlinked;
      ghost var j := IndexOf(s, item);
      var list := GetList(space);
      assert Represents(list.db.Entries(), s);
      RemoveExactly(list.db.Entries(), s, j);
      MembersUnlink(list.db.Entries(), s, j);
      var ok := list.Remove(item);
      if NeighboursTruthy(s, j) {
        ListChanged(old(db.entries), db.entries, c, path, space, Without(s, item));
      } else {
        BrokenList(db.entries, path, space);
      }
    }

    /** A list that remove has already broken is never empty, so then nothing more happens. */
    method TestKeySubNsDel(ghost c: Catalog, ghost intact: bool)
      requires intact ==> ListsHold(db.entries, c) && Registered(c, {path})
      requires !intact ==> Length(View(db.entries, path, KeyList)) > 0 || Length(View(db.entries, path, SubNsList)) > 0
      modifies db
      ensures intact && CanRetire(c, path) ==> ListsHold(db.entries, Retire(c, path))
      ensures intact && !CanRetire(c, path) ==> ListsBroken(db.entries)
      ensures !intact ==> db.entries == old(db.entries)
      ensures SameUserEntries(old(db.entries), db.entries)
      decreases |path|, 0
    {
      hide ListsHold, Registered, View, SameElsewhere;
      if intact { ListLength(db.entries, c, path); }
      var empty := BothListsEmpty();
      if empty && path != [] {
        var parent := new Rack(db, path[..|path| - 1]);
        assert path[..|path| - 1] + [path[|path| - 1]] == path;
        parent.DelChild(path[|path| - 1], c);
      }
    }

    method DelChild(child: Key, ghost c: Catalog)
      requires ListsHold(db.entries, c) && Registered(c, {path + [child]}) && !Occupied(c, path + [child])
      modifies db
      ensures CanRetire(c, path + [child]) ==> ListsHold(db.entries, Retire(c, path + [child]))
      ensures !CanRetire(c, path + [child]) ==> ListsBroken(db.entries)
      ensures SameUserEntries(old(db.entries), db.entries)
      decreases |path|, 1
    {
      ghost var p, s := path + [child], SubsAt(c, path);
      assert Parent(p) == path && Last(p) == child;
      PendingIsListed(c, p);
      UnlistChild(c, p);
      RetireStep(c, p);
      hide *;
      RemoveFrom(SubNsList, child, c, s);
      ghost var e := db.entries;
      TestKeySubNsDel(WithSubs(c, path, Without(s, child)), NeighboursTruthy(s, IndexOf(s, child)));
      UserEntriesKept(old(db.entries), e, db.entries, path, SubNsList);
    }

    method NewKey(key: Key, ghost c: Catalog)
      requires ListsHold(db.entries, c) && Registered(c, {}) && key !in KeysAt(c, path)
      modifies db
      ensures ListsHold(db.entries, AddKey(c, path, key))
      ensures SameUserEntries(old(db.entries), db.entries)
    {
      hide ListsHold, Registered, View, Represents;
      TestKeySubNsAdd(c);
      AnnounceChanges(c, path, path);
      AppendTo(KeyList, key, Announce(c, path));
    }

    method DelKey(key: Key, ghost c: Catalog)
      requires ListsHold(db.entries, c) && Registered(c, {}) && key in KeysAt(c, path)
      modifies db
      ensures CanRemove(c, path, key) ==> ListsHold(db.entries, RemoveKey(c, path, key))
      ensures !CanRemove(c, path, key) ==> ListsBroken(db.entries)
      ensures SameUserEntries(old(db.entries), db.entries)
    {
      ghost var s := KeysAt(c, path);
      RemovalStep(c, path, key);
      hide *;
      RemoveFrom(KeyList, key, c, s);
      ghost var e := db.entries;
      TestKeySubNsDel(WithKeys(c, path, Without(s, key)), NeighboursTruthy(s, IndexOf(s, key)));
      UserEntriesKept(old(db.entries), e, db.entries, path, KeyList);
    }

    method GetItem(key: Key) returns (r: Option<Value>)
      ensures r == Lookup(View(db.entries, path, User), key)
    {
      ViewAt(db.entries, path, User, key);
      var s := Slot(path, User, key);
      if s in db.entries { r := Some(db.entries[s]); } else { r := None; }
    }

    /** Stores the value and keeps the catalog, whatever the key and whatever is stored already. */
    method SetItem(key: Key, value: Value, ghost c: Catalog)
      requires IsCatalog(db.entries, c)
      modifies db
      ensures IsCatalog(db.entries, Apply(c, Set(path, key, value)))
      ensures SameUserEntries(old(db.entries)[Slot(path, User, key) := value], db.entries)
    {
      hide ListsHold, Registered, View, Represents;
      var s := Slot(path, User, key);
      ghost var c' := Apply(c, Set(path, key, value));
      if s !in db.entries {
        AddKeyRegisters(c, path, key);
        NewKey(key, c);
      }
      ghost var e := db.entries;
      db.entries := db.entries[s := value];
      ListsUnmoved(e, db.entries, c', path);
      forall p, k ensures k in KeysAt(c', p) <==> Slot(p, User, k) in db.entries {
        if s !in old(db.entries) { AddKeyChanges(c, path, key, p); }
        assert k in KeysAt(c, p) <==> Slot(p, User, k) in old(db.entries);
      }
    }

    /**
     * Deletes the entry. The catalog survives exactly when every list item that has to go has
     * neighbours that count as true; otherwise no catalog describes what is left.
     */
    method DelItem(key: Key, ghost c: Catalog) returns (found: bool)
      requires IsCatalog(db.entries, c)
      modifies db
      ensures found <==> Slot(path, User, key) in old(db.entries)
      ensures found <==> key in KeysAt(c, path)
      ensures !found ==> db.entries == old(db.entries)
      ensures found && CanRemove(c, path, key) ==> IsCatalog(db.entries, RemoveKey(c, path, key))
      ensures found && !CanRemove(c, path, key) ==> ListsBroken(db.entries)
      ensures SameUserEntries(old(db.entries) - {Slot(path, User, key)}, db.entries)
    {
      hide ListsHold, Registered, View, Represents;
      var s := Slot(path, User, key);
      if s !in db.entries {
        return false;
      }
      assert key in KeysAt(c, path);
      RemoveKeyRegisters(c, path, key);
      db.entries := db.entries - {s};
      ListsUnmoved(old(db.entries), db.entries, c, path);
      DelKey(key, c);
      found := true;
      if CanRemove(c, path, key) {
        ghost var c' := RemoveKey(c, path, key);
        MembersAfterRemoval(c, path, key);
        forall p, k ensures k in KeysAt(c', p) <==> Slot(p, User, k) in db.entries {
          assert k in KeysAt(c, p) <==> Slot(p, User, k) in old(db.entries);
        }
      }
    }

    /** Deletes the entry of every listed key. */
    method DeleteUserEntries(ghost c: Catalog)
      requires IsCatalog(db.entries, c)
      modifies db
      ensures SameElsewhere(old(db.entries), db.entries, path, User)
      ensures forall s: Slot | s.path == path && s.space == User :: s !in db.entries
    {
      ghost var e, listed := db.entries, KeysAt(c, path);
      var list := GetList(KeyList);
      assert Represents(list.db.Entries(), listed);
      hide ListsHold, Registered, View, Represents;
      var keys := list.Forward(listed);
      for i := 0 to |keys|
        invariant SameElsewhere(e, db.entries, path, User)
        invariant forall s: Slot | s.path == path && s.space == User ::
                    s in db.entries <==> s in e && s.key !in keys[..i]
      {
        assert keys[..i + 1] == keys[..i] + [keys[i]];
        db.entries := db.entries - {Slot(path, User, keys[i])};
      }
      forall s: Slot | s.path == path && s.space == User ensures s !in db.entries {
        assert Slot(path, User, s.key) == s;
        assert s.key in KeysAt(c, path) <==> Slot(path, User, s.key) in e;
      }
    }

    /** Empties the key list if all keys are true; otherwise the list stays as it is, or is no list any more. */
    method ClearKeyList(ghost c: Catalog)
      requires ListsHold(db.entries, c)
      modifies db
      ensures AllTruthy(KeysAt(c, path)) ==> ListsHold(db.entries, WithKeys(c, path, []))
      ensures !AllTruthy(KeysAt(c, path)) ==>
                && Length(View(db.entries, path, KeyList)) > 0
                && if Truthy(KeysAt(c, path)[0]) then ListsBroken(db.entries) else ListsHold(db.entries, c)
      ensures SameElsewhere(old(db.entries), db.entries, path, KeyList)
    {
      ghost var keys := KeysAt(c, path);
      ListLength(db.entries, c, path);
      var list := GetList(KeyList);
      assert Represents(list.db.Entries(), keys);
      hide View, Represents, SameElsewhere, Length;
      list.Clear(keys);
      if AllTruthy(keys) {
        ListChanged(old(db.entries), db.entries, c, path, KeyList, []);
      } else if Truthy(keys[0]) {
        BrokenList(db.entries, path, KeyList);
      } else {
        ListChanged(old(db.entries), db.entries, c, path, KeyList, keys);
        SameKeys(db.entries, c, path);
      }
    }

    /**
     * Deletes all keys of an occupied namespace. A catalog survives exactly if all the keys count as true and
     * the namespace can be unlisted cleanly where that is needed; otherwise none at all describes what is left.
     */
    method Clear(ghost c: Catalog)
      requires IsCatalog(db.entries, c) && Occupied(c, path)
      modifies db
      ensures CanClear(c, path) ==> IsCatalog(db.entries, Retire(WithKeys(c, path, []), path))
      ensures !CanClear(c, path) ==> forall c' :: !IsCatalog(db.entries, c')
      ensures Cleared(old(db.entries), db.entries, path)
    {
      ghost var e, keys, c1 := db.entries, KeysAt(c, path), WithKeys(c, path, []);
      KeysShrink(c, path, []);
      RetireRegisters(c1, path);
      hide *;
      DeleteUserEntries(c);
      ghost var e1 := db.entries;
      ListsOfCatalog(e, c);
      ListsUnmoved(e, e1, c, path);
      ClearKeyList(c);
      ghost var e2 := db.entries;
      TestKeySubNsDel(c1, AllTruthy(keys));
      ClearedSoFar(e, e1, e2, db.entries, path);
      CanClearMeans(c, path);
      ClearLeaves(e, db.entries, c, path);
    }

    /** Collects the live keys, the names of children with entries, and the slots of the two lists. */
    method Scan() returns (keyList: seq<Key>, subNsList: seq<Key>, internalKeys: set<Slot>)
      ensures Scanned(db.entries.Keys, path, keyList, subNsList, internalKeys)
    {
      keyList, subNsList, internalKeys := [], [], {};
      var todo := db.entries.Keys;
      while todo != {}
        invariant todo <= db.entries.Keys
        invariant Scanned(db.entries.Keys - todo, path, keyList, subNsList, internalKeys)
        decreases |todo|
      {
        hide Scanned;
        var s :| s in todo;
        ScannedOneMore(db.entries.Keys - todo, s, path, keyList, subNsList, internalKeys);
        assert db.entries.Keys - (todo - {s}) == db.entries.Keys - todo + {s};
        todo := todo - {s};
        if s.path == path {
          if s.space == User {
            if s.key !in keyList { keyList := keyList + [s.key]; }
          } else {
            internalKeys := internalKeys + {s};
          }
        }
        if |s.path| > |path| && s.path[..|s.path| - 1] == path {
          var name := s.path[|path|];
          if name !in subNsList { subNsList := subNsList + [name]; }
        }
      }
      assert db.entries.Keys - todo == db.entries.Keys;
    }

    method DeleteSlots(slots: set<Slot>)
      requires slots <= db.entries.Keys
      modifies db
      ensures db.entries == old(db.entries) - slots
    {
      var left := slots;
      while left != {}
        invariant left <= slots && db.entries == old(db.entries) - (slots - left)
        decreases |left|
      {
        var s :| s in left;
        left := left - {s};
        db.entries := db.entries - {s};
      }
      assert slots - left == slots;
    }

    /** Appends a new item to a list object of this database. */
    method Extend(list: LinkedList, item: Key, ghost s: seq<Key>)
      requires list.db.db == db && Represents(list.db.Entries(), s) && item !in s
      modifies db
      ensures Represents(list.db.Entries(), s + [item])
      ensures SameElsewhere(old(db.entries), db.entries, list.db.path, list.db.space)
    {
      hide *;
      AppendCorrect(list.db.Entries(), s, item);
      EndsAreItems(list.db.Entries(), s);
      list.Append(item);
    }

    /** Appends the items one by one to a list that starts out empty. */
    method Refill(space: Space, items: seq<Key>)
      requires space != User && Distinct(items)
      requires Represents(View(db.entries, path, space), [])
      modifies db
      ensures Represents(View(db.entries, path, space), items)
      ensures SameElsewhere(old(db.entries), db.entries, path, space)
    {
      hide View, Represents, SameElsewhere;
      var list := GetList(space);
      ghost var e := db.entries;
      SameAsItself(e, path, space);
      assert items[..0] == [] && items[..|items|] == items;
      for i := 0 to |items|
        invariant Represents(list.db.Entries(), items[..i])
        invariant SameElsewhere(e, db.entries, path, space)
      {
        hide InternalRack.Entries;
        ghost var before := db.entries;
        assert items[i] !in items[..i] && items[..i + 1] == items[..i] + [items[i]];
        Extend(list, items[i], items[..i]);
        ElsewhereTransitive(e, before, db.entries, path, space);
      }
    }

    /** Rebuilds this namespace's two lists from the flat keys alone, in whatever order the database yields them. */
    method Reindex() returns (ghost keys: seq<Key>, ghost subs: seq<Key>)
      modifies db
      ensures Reindexed(old(db.entries), db.entries, path, keys, subs)
    {
      hide View, Represents, SameElsewhere, EntryAt, Distinct;
      ghost var e := db.entries;
      var keyList, subNsList, internalKeys := Scan();
      DeleteSlots(internalKeys);
      ghost var e1 := db.entries;
      ListsErased(e, e1, path, internalKeys);
      Refill(SubNsList, subNsList);
      ghost var e2 := db.entries;
      ViewElsewhere(e1, e2, path, SubNsList, path, KeyList);
      Refill(KeyList, keyList);
      ViewElsewhere(e2, db.entries, path, KeyList, path, SubNsList);
      ElsewhereTwice(e, e1, e2, db.entries, path);
      keys, subs := keyList, subNsList;
    }
  }

  // ---------------------------------------------------------------- reindexing

  ghost predicate ListsHoldExceptAt(e: map<Slot, Value>, c: Catalog, p: Path) {
    forall q | q != p ::
      && Represents(View(e, q, KeyList), KeysAt(c, q))
      && Represents(View(e, q, SubNsList), SubsAt(c, q))
  }

  lemma OccupiedIffEntry(e: map<Slot, Value>, c: Catalog, q: Path)
    requires KeysLive(e, c)
    requires Represents(View(e, q, KeyList), KeysAt(c, q)) && Represents(View(e, q, SubNsList), SubsAt(c, q))
    ensures Occupied(c, q) <==> EntryAt(e.Keys, q)
  {
    RepresentsAt(View(e, q, SubNsList), SubsAt(c, q), NoneKey);
    ViewAt(e, q, SubNsList, HEAD);
    if KeysAt(c, q) != [] {
      assert KeysAt(c, q)[0] in KeysAt(c, q);
      assert Slot(q, User, KeysAt(c, q)[0]) in e.Keys;
    } else if SubsAt(c, q) != [] {
      assert Slot(q, SubNsList, HEAD) in e.Keys;
    }
    if s :| s in e.Keys && s.path == q {
      ViewAt(e, q, s.space, s.key);
      assert Slot(q, s.space, s.key) == s;
      RepresentsUnique(View(e, q, KeyList), KeysAt(c, q), KeysAt(c, q));
      RepresentsUnique(View(e, q, SubNsList), SubsAt(c, q), SubsAt(c, q));
      assert s.space == User ==> s.key in KeysAt(c, q);
    }
  }

  lemma SameViews(e: map<Slot, Value>, e': map<Slot, Value>, q: Path, space: Space)
    requires forall s: Slot | s.path == q :: (s in e <==> s in e') && (s in e ==> e[s] == e'[s])
    ensures View(e, q, space) == View(e', q, space)
  {
    var v, w := View(e, q, space), View(e', q, space);
    forall k ensures (k in v <==> k in w) && (k in v ==> v[k] == w[k]) {
      assert Slot(q, space, k) in e <==> Slot(q, space, k) in e';
    }
  }

  lemma OtherListsHold(e: map<Slot, Value>, e': map<Slot, Value>, c: Catalog, p: Path, keys: seq<Key>, subs: seq<Key>)
    requires ListsHoldExceptAt(e, c, p) && Reindexed(e, e', p, keys, subs)
    ensures ListsHold(e', WithSubs(WithKeys(c, p, keys), p, subs))
  {
    var c' := WithSubs(WithKeys(c, p, keys), p, subs);
    hide Represents, View;
    forall q
      ensures Represents(View(e', q, KeyList), KeysAt(c', q)) && Represents(View(e', q, SubNsList), SubsAt(c', q))
    {
      if q != p {
        assert Represents(View(e, q, KeyList), KeysAt(c, q)) && Represents(View(e, q, SubNsList), SubsAt(c, q));
        SameViews(e, e', q, KeyList);
        SameViews(e, e', q, SubNsList);
      }
    }
  }

  lemma ChildrenAreOccupied(e: map<Slot, Value>, c: Catalog, p: Path, n: Key)
    requires Registered(c, {}) && KeysLive(e, c) && ListsHoldExceptAt(e, c, p)
    ensures n in SubsAt(c, p) <==> EntryAt(e.Keys, p + [n])
  {
    hide Represents, View, Distinct;
    var q := p + [n];
    assert Parent(q) == p && Last(q) == n;
    OccupiedIffEntry(e, c, q);
    assert n in SubsAt(c, p) <==> Occupied(c, q);
  }

  lemma SameMembersRegistered(c: Catalog, p: Path, keys: seq<Key>, subs: seq<Key>)
    requires Registered(c, {}) && Distinct(keys) && Distinct(subs)
    requires forall k :: k in keys <==> k in KeysAt(c, p)
    requires forall n :: n in subs <==> n in SubsAt(c, p)
    ensures Registered(WithSubs(WithKeys(c, p, keys), p, subs), {})
  {
    hide Distinct;
    var c' := WithSubs(WithKeys(c, p, keys), p, subs);
    assert (keys == [] <==> KeysAt(c, p) == []) && (subs == [] <==> SubsAt(c, p) == []) by {
      if keys != [] { assert keys[0] in keys; }
      if KeysAt(c, p) != [] { assert KeysAt(c, p)[0] in KeysAt(c, p); }
      if subs != [] { assert subs[0] in subs; }
      if SubsAt(c, p) != [] { assert SubsAt(c, p)[0] in SubsAt(c, p); }
    }
    forall r ensures Distinct(KeysAt(c', r)) && Distinct(SubsAt(c', r)) {
      assert Distinct(KeysAt(c, r)) && Distinct(SubsAt(c, r));
    }
    forall r | r != [] ensures Last(r) in SubsAt(c', Parent(r)) <==> Occupied(c', r) {
      assert Last(r) in SubsAt(c, Parent(r)) <==> Occupied(c, r);
    }
  }

  /** Reindexing a namespace whose two lists are damaged in any way makes the whole tree consistent again. */
  lemma ReindexRestores(e: map<Slot, Value>, e': map<Slot, Value>, c: Catalog, p: Path, keys: seq<Key>, subs: seq<Key>)
    requires Registered(c, {}) && KeysLive(e, c) && ListsHoldExceptAt(e, c, p)
    requires Reindexed(e, e', p, keys, subs)
    ensures IsCatalog(e', WithSubs(WithKeys(c, p, keys), p, subs))
  {
    var c' := WithSubs(WithKeys(c, p, keys), p, subs);
    assert Distinct(keys) && Distinct(subs);
    OtherListsHold(e, e', c, p, keys, subs);
    hide ListsHold, ListsHoldExceptAt, Represents, View, Distinct, Registered;
    forall n ensures n in subs <==> n in SubsAt(c, p) { ChildrenAreOccupied(e, c, p, n); }
    SameMembersRegistered(c, p, keys, subs);
    forall q, k ensures k in KeysAt(c', q) <==> Slot(q, User, k) in e' {
      assert k in KeysAt(c, q) <==> Slot(q, User, k) in e;
    }
  }

  // ---------------------------------------------------------------- runs

  ghost predicate HoldsStored(e: map<Slot, Value>, ops: seq<Op>) {
    forall p, k :: Lookup(e, Slot(p, User, k)) == Stored(ops, p, k)
  }

  lemma NothingStored()
    ensures HoldsStored(map[], [])
  {
  }

  lemma OneMoreStored(e: map<Slot, Value>, e': map<Slot, Value>, before: seq<Op>, op: Op)
    requires HoldsStored(e, before)
    requires var s := Slot(op.path, User, op.key); SameUserEntries(if op.Set? then e[s := op.value] else e - {s}, e')
    ensures HoldsStored(e', before + [op])
  {
    assert (before + [op])[..|before|] == before;
    forall p, k ensures Lookup(e', Slot(p, User, k)) == Stored(before + [op], p, k) {
      assert Lookup(e, Slot(p, User, k)) == Stored(before, p, k);
    }
  }

  lemma KeyListsInOrder(e: map<Slot, Value>, ops: seq<Op>)
    requires IsCatalog(e, Run(ops))
    ensures forall p :: Represents(View(e, p, KeyList), CreationOrder(ops, p))
  {
    hide Represents, View, Registered, KeysLive;
    forall p ensures Represents(View(e, p, KeyList), CreationOrder(ops, p)) { KeysInCreationOrder(ops, p); }
  }

  /** One operation; deleting a key that does not exist is the source's KeyError. */
  method Do(db: Db, op: Op, ghost c: Catalog)
    requires IsCatalog(db.entries, c) && CanApply(c, op)
    modifies db
    ensures IsCatalog(db.entries, Apply(c, op))
    ensures var s, e := Slot(op.path, User, op.key), old(db.entries);
            SameUserEntries(if op.Set? then e[s := op.value] else e - {s}, db.entries)
  {
    hide IsCatalog, KeysAt, CanRemove, SameUserEntries, AddKey, RemoveKey;
    var rack := new Rack(db, op.path);
    match op
    case Set(_, key, value) =>
      rack.SetItem(key, value, c);
    case Delete(_, key) =>
      var found := rack.DelItem(key, c);
  }

  /**
   * After any run on an empty database the catalog is exact, every entry holds what was last stored, and
   * every key list has the live keys in the order they were created.
   */
  method Perform(db: Db, ops: seq<Op>)
    requires db.entries == map[] && CanRun(ops)
    modifies db
    ensures IsCatalog(db.entries, Run(ops)) && HoldsStored(db.entries, ops)
    ensures forall p :: Represents(View(db.entries, p, KeyList), CreationOrder(ops, p))
  {
    EmptyIsCatalog();
    NothingStored();
    hide *;
    assert ops[..0] == [] && ops[..|ops|] == ops;
    for i := 0 to |ops|
      invariant IsCatalog(db.entries, Run(ops[..i])) && HoldsStored(db.entries, ops[..i])
    {
      assert ops[..i + 1] == ops[..i] + [ops[i]];
      CanRunPrefix(ops, i + 1);
      RunOneMore(ops[..i], ops[i]);
      ghost var e := db.entries;
      Do(db, ops[i], Run(ops[..i]));
      OneMoreStored(e, db.entries, ops[..i], ops[i]);
    }
    KeyListsInOrder(db.entries, ops);
  }

  /** The child list of p, which names exactly the children with user entries at or below them. */
  ghost predicate IsChildList(e: map<Slot, Value>, p: Path, subs: seq<Key>) {
    && Represents(View(e, p, SubNsList), subs)
    && forall n :: n in subs <==> exists s :: s in e && s.space == User && p + [n] <= s.path
  }

  ghost predicate HasChildList(e: map<Slot, Value>, p: Path) {
    exists subs :: IsChildList(e, p, subs)
  }

  lemma ListingsFollowEntries(e: map<Slot, Value>, ops: seq<Op>, p: Path)
    requires IsCatalog(e, Run(ops))
    ensures HasChildList(e, p)
  {
    hide Represents, View, Registered, KeysLive;
    var subs := SubsAt(Run(ops), p);
    forall n ensures n in subs <==> exists s :: s in e && s.space == User && p + [n] <= s.path {
      ListedIffEntryBelow(e, Run(ops), p, n);
    }
    assert IsChildList(e, p, subs);
  }

  lemma StoredAll(e: map<Slot, Value>, ops: seq<Op>)
    requires HoldsStored(e, ops)
    ensures forall p, k :: Lookup(e, Slot(p, User, k)) == Stored(ops, p, k)
  {
  }

  /**
   * Any run of sets and deletes whose keys and path components are neither None nor zero nor empty, on an
   * empty database: every entry holds what was last stored, every key list has the live keys in the order
   * they were created, and every child list names exactly the children with entries at or below them.
   */
  method PerformPlain(db: Db, ops: seq<Op>)
    requires db.entries == map[] && PlainOps(ops)
    modifies db
    ensures forall p, k :: Lookup(db.entries, Slot(p, User, k)) == Stored(ops, p, k)
    ensures forall p :: Represents(View(db.entries, p, KeyList), CreationOrder(ops, p))
    ensures forall p :: HasChildList(db.entries, p)
  {
    hide *;
    PlainOpsCanRun(ops);
    Perform(db, ops);
    StoredAll(db.entries, ops);
    forall p ensures HasChildList(db.entries, p) { ListingsFollowEntries(db.entries, ops, p); }
  }
}
