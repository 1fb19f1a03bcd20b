/** The flat database, the per-namespace view of it, and the doubly linked list kept in such a view. */
module FlatDb {
  import opened Basics
  import opened Keys

  type Path = seq<Key>

  /** User entries of a namespace, and the two spaces that hold its internal lists. */
  datatype Space = User | KeyList | SubNsList

  /** What a flat key pickles: the namespace path, the internal space and the key proper. */
  datatype Slot = Slot(path: Path, space: Space, key: Key)

  /** A stored value: one that is also a key (a list item or a count), or anything else. */
  datatype Value = Item(key: Key) | Other(blob: int)

  /** The entries of one space of one namespace, as a dictionary of their own. */
  ghost function View(entries: map<Slot, Value>, path: Path, space: Space): map<Key, Value> {
    map s | s in entries && s.path == path && s.space == space :: s.key := entries[s]
  }

  ghost predicate SameElsewhere(before: map<Slot, Value>, after: map<Slot, Value>, path: Path, space: Space) {
    forall s: Slot | s.path != path || s.space != space ::
      (s in before <==> s in after) && (s in before ==> before[s] == after[s])
  }

  lemma ViewElsewhere(before: map<Slot, Value>, after: map<Slot, Value>, path: Path, space: Space,
                      path': Path, space': Space)
    requires SameElsewhere(before, after, path, space)
    requires path != path' || space != space'
    ensures View(before, path', space') == View(after, path', space')
  {
    var v, w := View(before, path', space'), View(after, path', space');
    forall k ensures (k in v <==> k in w) && (k in v ==> v[k] == w[k]) {
      var s := Slot(path', space', k);
      assert s in before <==> s in after;
    }
  }

  lemma ViewAt(entries: map<Slot, Value>, path: Path, space: Space, key: Key)
    ensures key in View(entries, path, space) <==> Slot(path, space, key) in entries
    ensures key in View(entries, path, space) ==>
              View(entries, path, space)[key] == entries[Slot(path, space, key)]
  {
    var s := Slot(path, space, key);
    assert s in entries ==> s.key in View(entries, path, space);
  }

  lemma ViewPut(entries: map<Slot, Value>, path: Path, space: Space, key: Key, value: Value)
    ensures View(entries[Slot(path, space, key) := value], path, space) == View(entries, path, space)[key := value]
  {
    var s := Slot(path, space, key);
    var after := entries[s := value];
    var v, w := View(after, path, space), View(entries, path, space)[key := value];
    forall k ensures (k in v <==> k in w) && (k in v ==> v[k] == w[k]) {
      ViewAt(entries, path, space, k);
      ViewAt(after, path, space, k);
      assert k != key ==> Slot(path, space, k) != s;
    }
  }

  lemma ViewDel(entries: map<Slot, Value>, path: Path, space: Space, key: Key)
    ensures View(entries - {Slot(path, space, key)}, path, space) == View(entries, path, space) - {key}
  {
    var s := Slot(path, space, key);
    var after := entries - {s};
    var v, w := View(after, path, space), View(entries, path, space) - {key};
    forall k ensures (k in v <==> k in w) && (k in v ==> v[k] == w[k]) {
      ViewAt(entries, path, space, k);
      ViewAt(after, path, space, k);
      assert k != key ==> Slot(path, space, k) != s;
    }
  }

  /** The flat dictionary every rack of one database shares. */
  class Db {
    var entries: map<Slot, Value>

    constructor ()
      ensures entries == map[]
    {
      entries := map[];
    }

  }

  /** A dictionary made of one space of one namespace. */
  class InternalRack {
    const db: Db
    const path: Path
    const space: Space

    constructor (db: Db, path: Path, space: Space)
      ensures this.db == db && this.path == path && this.space == space
    {
      this.db, this.path, this.space := db, path, space;
    }

    ghost function Entries(): map<Key, Value>
      reads db
    {
      View(db.entries, path, space)
    }

    /** None is the source's KeyError. */
    method Get(key: Key) returns (r: Option<Value>)
      ensures r == if key in Entries() then Some(Entries()[key]) else None
    {
      ViewAt(db.entries, path, space, key);
      var s := Slot(path, space, key);
      if s in db.entries { r := Some(db.entries[s]); } else { r := None; }
    }

    method Put(key: Key, value: Value)
      modifies db
      ensures Entries() == old(Entries())[key := value]
      ensures SameElsewhere(old(db.entries), db.entries, path, space)
    {
      ViewPut(db.entries, path, space, key, value);
      db.entries := db.entries[Slot(path, space, key) := value];
    }

    /** False is the source's KeyError. */
    method Del(key: Key) returns (found: bool)
      modifies db
      ensures found <==> key in old(Entries())
      ensures Entries() == old(Entries()) - {key}
      ensures SameElsewhere(old(db.entries), db.entries, path, space)
    {
      ViewAt(db.entries, path, space, key);
      ViewDel(db.entries, path, space, key);
      found := Slot(path, space, key) in db.entries;
      db.entries := db.entries - {Slot(path, space, key)};
    }
  }
}

module LinkedLists {
  import opened Basics
  import opened Keys
  import opened FlatDb

  const HEAD := Int(1)
  const TAIL := Int(2)
  const COUNT := Int(3)

  function PrevKey(item: Key): (k: Key)
    ensures k.Tuple? && |k.items| == 2 && k.items[0] == Int(1) && k.items[1] == item
  {
    Tuple([Int(1), item])
  }

  function NextKey(item: Key): (k: Key)
    ensures k.Tuple? && |k.items| == 2 && k.items[0] == Int(2) && k.items[1] == item
  {
    Tuple([Int(2), item])
  }

  function IndexOf(s: seq<Key>, x: Key): (j: nat)
    requires x in s
    ensures j < |s| && s[j] == x
  {
    if s[0] == x then 0 else 1 + IndexOf(s[1..], x)
  }

  function Before(s: seq<Key>, x: Key): Option<Value> {
    if x in s && IndexOf(s, x) > 0 then Some(Item(s[IndexOf(s, x) - 1])) else None
  }

  function After(s: seq<Key>, x: Key): Option<Value> {
    if x in s && IndexOf(s, x) + 1 < |s| then Some(Item(s[IndexOf(s, x) + 1])) else None
  }

  predicate IsPrevKey(k: Key) {
    k.Tuple? && |k.items| == 2 && k == PrevKey(k.items[1])
  }

  predicate IsNextKey(k: Key) {
    k.Tuple? && |k.items| == 2 && k == NextKey(k.items[1])
  }

  /** What a linked list with contents s keeps under the key k. */
  function Wanted(s: seq<Key>, k: Key): Option<Value> {
    if s == [] then None
    else if k == HEAD then Some(Item(s[0]))
    else if k == TAIL then Some(Item(s[|s| - 1]))
    else if k == COUNT then Some(Item(Int(|s|)))
    else if IsPrevKey(k) then Before(s, k.items[1])
    else if IsNextKey(k) then After(s, k.items[1])
    else None
  }

  /** The dictionary m holds exactly the entries of a linked list with contents s. */
  ghost predicate Represents(m: map<Key, Value>, s: seq<Key>) {
    Distinct(s) && forall k :: Lookup(m, k) == Wanted(s, k)
  }

  /** The length the list reports. */
  function Length(m: map<Key, Value>): nat {
    if COUNT in m && m[COUNT].Item? && m[COUNT].key.Int? && m[COUNT].key.n > 0 then m[COUNT].key.n else 0
  }

  function RemoveAt(s: seq<Key>, j: nat): (r: seq<Key>)
    requires j < |s|
    ensures |r| == |s| - 1
  {
    s[..j] + s[j + 1..]
  }

  function Without(s: seq<Key>, x: Key): (t: seq<Key>)
    requires x in s
    ensures |t| == |s| - 1
  {
    RemoveAt(s, IndexOf(s, x))
  }

  lemma WithoutMembers(s: seq<Key>, x: Key)
    requires Distinct(s) && x in s
    ensures Distinct(Without(s, x))
    ensures forall y :: y in Without(s, x) <==> y in s && y != x
  {
    var j := IndexOf(s, x);
    var t := Without(s, x);
    forall y ensures y in t <==> y in s && y != x {
      if y in s && y != x {
        var i := IndexOf(s, y);
        assert t[if i < j then i else i - 1] == y;
      }
    }
  }

  predicate AllTruthy(s: seq<Key>) {
    forall x | x in s :: Truthy(x)
  }

  /** Neither neighbour of the item at j is a key that counts as false. */
  predicate NeighboursTruthy(s: seq<Key>, j: nat)
    requires j < |s|
  {
    (j > 0 ==> Truthy(s[j - 1])) && (j + 1 < |s| ==> Truthy(s[j + 1]))
  }

  // ------------------------------------------------ the dictionaries that remove leaves behind

  function Recounted(m: map<Key, Value>): (m': map<Key, Value>) {
    var n := Length(m) - 1;
    if n != 0 then m[COUNT := Item(Int(n))] else m - {COUNT}
  }

  function UnlinkMiddle(m: map<Key, Value>, x: Key, prev: Key, next: Key): map<Key, Value> {
    m[NextKey(prev) := Item(next)][PrevKey(next) := Item(prev)] - {PrevKey(x)} - {NextKey(x)}
  }

  function UnlinkFirst(m: map<Key, Value>, x: Key, next: Key): map<Key, Value> {
    m[HEAD := Item(next)] - {PrevKey(next)} - {NextKey(x)}
  }

  function UnlinkLast(m: map<Key, Value>, x: Key, prev: Key): map<Key, Value> {
    m[TAIL := Item(prev)] - {NextKey(prev)} - {PrevKey(x)}
  }

  lemma {:induction false} IndexOfAt(s: seq<Key>, i: nat)
    requires Distinct(s) && i < |s|
    ensures IndexOf(s, s[i]) == i
  {
    assert s[IndexOf(s, s[i])] == s[i];
  }

  /** What taking out position j does to the neighbours of another member. */
  lemma RemoveAtItem(s: seq<Key>, j: nat, k: nat)
    requires j < |s| && k < |s| - 1
    ensures RemoveAt(s, j)[k] == if k < j then s[k] else s[k + 1]
  {
  }

  /** What taking out position j does to the place of another member. */
  lemma RemoveAtPlaces(s: seq<Key>, j: nat, x: Key)
    requires Distinct(s) && j < |s|
    ensures Distinct(RemoveAt(s, j))
    ensures x in RemoveAt(s, j) <==> x in s && x != s[j]
    ensures x in s && x != s[j] ==>
              IndexOf(RemoveAt(s, j), x) == if IndexOf(s, x) < j then IndexOf(s, x) else IndexOf(s, x) - 1
  {
    var t := RemoveAt(s, j);
    if x in s && x != s[j] {
      var i := IndexOf(s, x);
      var i' := if i < j then i else i - 1;
      assert t[i'] == x;
      IndexOfAt(t, i');
    }
  }

  lemma MemberNeighbours(s: seq<Key>, i: nat)
    requires Distinct(s) && i < |s|
    ensures s[i] in s && IndexOf(s, s[i]) == i
    ensures Before(s, s[i]) == if i > 0 then Some(Item(s[i - 1])) else None
    ensures After(s, s[i]) == if i + 1 < |s| then Some(Item(s[i + 1])) else None
  {
    IndexOfAt(s, i);
  }

  lemma RemovedMember(s: seq<Key>, j: nat, i: nat)
    requires Distinct(s) && j < |s| && i < |s| && i != j
    ensures Before(RemoveAt(s, j), s[i]) == if i == j + 1 then Before(s, s[j]) else Before(s, s[i])
    ensures After(RemoveAt(s, j), s[i]) == if i + 1 == j then After(s, s[j]) else After(s, s[i])
  {
    hide *;
    var t, i' := RemoveAt(s, j), if i < j then i else i - 1;
    RemoveAtPlaces(s, j, s[i]);
    RemoveAtItem(s, j, i');
    MemberNeighbours(s, j);
    MemberNeighbours(s, i);
    MemberNeighbours(t, i');
    if i' > 0 { RemoveAtItem(s, j, i' - 1); }
    if i' + 1 < |t| { RemoveAtItem(s, j, i' + 1); }
  }

  /** The neighbours of any key once the item at j is gone. */
  lemma RemovedNeighbours(s: seq<Key>, j: nat, y: Key)
    requires Distinct(s) && j < |s|
    ensures var t := RemoveAt(s, j);
            && (y == s[j] ==> Before(t, y) == After(t, y) == None)
            && (y != s[j] ==>
                  && Before(t, y) == (if j + 1 < |s| && y == s[j + 1] then Before(s, s[j]) else Before(s, y))
                  && After(t, y) == (if j > 0 && y == s[j - 1] then After(s, s[j]) else After(s, y)))
  {
    RemoveAtPlaces(s, j, y);
    hide RemoveAt;
    if y in s && y != s[j] {
      var i := IndexOf(s, y);
      RemovedMember(s, j, i);
      assert j + 1 < |s| && i != j + 1 ==> s[i] != s[j + 1];
      assert j > 0 && i != j - 1 ==> s[i] != s[j - 1];
      hide Distinct, IndexOf, Before, After;
    } else {
      hide Distinct, IndexOf;
      assert j + 1 < |s| ==> s[j + 1] in s;
      assert j > 0 ==> s[j - 1] in s;
    }
  }

  lemma MiddleLookup(m: map<Key, Value>, x: Key, prev: Key, next: Key, n: int, k: Key)
    requires Lookup(m, COUNT) == Some(Item(Int(n))) && n > 1 && x != prev && x != next
    ensures Lookup(Recounted(UnlinkMiddle(m, x, prev, next)), k) ==
            if k == COUNT then Some(Item(Int(n - 1)))
            else if k == PrevKey(x) || k == NextKey(x) then None
            else if k == PrevKey(next) then Some(Item(prev))
            else if k == NextKey(prev) then Some(Item(next))
            else Lookup(m, k)
  {
  }

  lemma RepresentsAt(m: map<Key, Value>, s: seq<Key>, x: Key)
    requires Represents(m, s)
    ensures Lookup(m, HEAD) == Wanted(s, HEAD) && Lookup(m, TAIL) == Wanted(s, TAIL)
    ensures Lookup(m, COUNT) == Wanted(s, COUNT)
    ensures Lookup(m, PrevKey(x)) == Wanted(s, PrevKey(x))
    ensures Lookup(m, NextKey(x)) == Wanted(s, NextKey(x))
  {
  }

  lemma UnlinkMiddleCorrect(m: map<Key, Value>, s: seq<Key>, j: nat)
    requires Represents(m, s) && 0 < j < |s| - 1
    ensures Represents(Recounted(UnlinkMiddle(m, s[j], s[j - 1], s[j + 1])), RemoveAt(s, j))
  {
    var t, x, prev, next := RemoveAt(s, j), s[j], s[j - 1], s[j + 1];
    RepresentsAt(m, s, x);
    RemoveAtPlaces(s, j, x);
    MemberNeighbours(s, j);
    assert prev != x && x != next && t[0] == s[0] && t[|t| - 1] == s[|s| - 1];
    hide RemoveAt, UnlinkMiddle, Recounted;
    forall k ensures Lookup(Recounted(UnlinkMiddle(m, x, prev, next)), k) == Wanted(t, k) {
      assert Lookup(m, k) == Wanted(s, k);
      hide Distinct, IndexOf, Before, After, Lookup;
      MiddleLookup(m, x, prev, next, |s|, k);
      if IsPrevKey(k) || IsNextKey(k) {
        RemovedNeighbours(s, j, k.items[1]);
      }
    }
  }

  lemma UnlinkFirstCorrect(m: map<Key, Value>, s: seq<Key>)
    requires Represents(m, s) && |s| > 1
    ensures Represents(Recounted(UnlinkFirst(m, s[0], s[1])), RemoveAt(s, 0))
  {
    var t := RemoveAt(s, 0);
    var m' := Recounted(UnlinkFirst(m, s[0], s[1]));
    assert Lookup(m, COUNT) == Some(Item(Int(|s|)));
    RemoveAtPlaces(s, 0, s[0]);
    MemberNeighbours(s, 0);
    assert s[0] != s[1];
    hide RemoveAt;
    forall k ensures Lookup(m', k) == Wanted(t, k) {
      assert Lookup(m, k) == Wanted(s, k);
      hide Distinct, IndexOf, Before, After;
      if IsPrevKey(k) || IsNextKey(k) {
        RemovedNeighbours(s, 0, k.items[1]);
      }
    }
  }

  lemma UnlinkLastCorrect(m: map<Key, Value>, s: seq<Key>)
    requires Represents(m, s) && |s| > 1
    ensures Represents(Recounted(UnlinkLast(m, s[|s| - 1], s[|s| - 2])), RemoveAt(s, |s| - 1))
  {
    var j := |s| - 1;
    var t := RemoveAt(s, j);
    var m' := Recounted(UnlinkLast(m, s[j], s[j - 1]));
    assert Lookup(m, COUNT) == Some(Item(Int(|s|)));
    RemoveAtPlaces(s, j, s[j]);
    MemberNeighbours(s, j);
    assert s[j - 1] != s[j];
    hide RemoveAt;
    forall k ensures Lookup(m', k) == Wanted(t, k) {
      assert Lookup(m, k) == Wanted(s, k);
      hide Distinct, IndexOf, Before, After;
      if IsPrevKey(k) || IsNextKey(k) {
        RemovedNeighbours(s, j, k.items[1]);
      }
    }
  }

  lemma UnlinkOnlyCorrect(m: map<Key, Value>, s: seq<Key>)
    requires Represents(m, s) && |s| == 1
    ensures Represents(Recounted(m - {HEAD} - {TAIL}), RemoveAt(s, 0))
  {
    var m' := Recounted(m - {HEAD} - {TAIL});
    assert Lookup(m, COUNT) == Some(Item(Int(|s|)));
    forall k ensures Lookup(m', k) == None {
      assert Lookup(m, k) == Wanted(s, k);
    }
  }

  // ------------------------------------------------ the four mutators, as functions on dictionaries

  /** A missing link reads as None. */
  function Link(m: map<Key, Value>, k: Key): Key {
    if k in m && m[k].Item? then m[k].key else NoneKey
  }

  function Unlinked(m: map<Key, Value>, x: Key): map<Key, Value> {
    var next := Link(m, NextKey(x));
    var prev := Link(m, PrevKey(x));
    if Truthy(prev) && Truthy(next) then Recounted(UnlinkMiddle(m, x, prev, next))
    else if Truthy(next) then Recounted(UnlinkFirst(m, x, next))
    else if Truthy(prev) then Recounted(UnlinkLast(m, x, prev))
    else Recounted(m - {HEAD} - {TAIL})
  }

  function Appended(m: map<Key, Value>, x: Key): map<Key, Value> {
    var m1 := m[COUNT := Item(Int(Length(m) + 1))];
    if TAIL !in m then m1[HEAD := Item(x)][TAIL := Item(x)]
    else m1[PrevKey(x) := m[TAIL]][NextKey(Link(m, TAIL)) := Item(x)][TAIL := Item(x)]
  }

  function Prepended(m: map<Key, Value>, x: Key): map<Key, Value> {
    var m1 := m[COUNT := Item(Int(Length(m) + 1))];
    if HEAD !in m then m1[HEAD := Item(x)][TAIL := Item(x)]
    else m1[NextKey(x) := m[HEAD]][PrevKey(Link(m, HEAD)) := Item(x)][HEAD := Item(x)]
  }

  /** The entries around the member at j. */
  lemma MemberLinks(m: map<Key, Value>, s: seq<Key>, j: nat)
    requires Represents(m, s) && j < |s|
    ensures Lookup(m, HEAD) == Some(Item(s[0])) && Lookup(m, TAIL) == Some(Item(s[|s| - 1]))
    ensures Lookup(m, COUNT) == Some(Item(Int(|s|)))
    ensures Lookup(m, NextKey(s[j])) == if j + 1 < |s| then Some(Item(s[j + 1])) else None
    ensures Lookup(m, PrevKey(s[j])) == if j > 0 then Some(Item(s[j - 1])) else None
  {
    IndexOfAt(s, j);
    RepresentsAt(m, s, s[j]);
  }

  lemma {:induction false} SameItem(m: map<Key, Value>, s: seq<Key>, t: seq<Key>, i: nat)
    requires Represents(m, s) && Represents(m, t) && |s| == |t| && i < |s|
    ensures s[i] == t[i]
  {
    hide Represents;
    MemberLinks(m, s, if i == 0 then 0 else i - 1);
    MemberLinks(m, t, if i == 0 then 0 else i - 1);
    if i > 0 { SameItem(m, s, t, i - 1); }
  }

  /** A list's dictionary determines the list; it is empty exactly when the list is. */
  lemma RepresentsUnique(m: map<Key, Value>, s: seq<Key>, t: seq<Key>)
    requires Represents(m, s) && Represents(m, t)
    ensures s == t && Length(m) == |s| && (m == map[] <==> s == [])
  {
    if s == [] || t == [] {
      RepresentsAt(m, s, NoneKey);
      RepresentsAt(m, t, NoneKey);
      forall k ensures k !in m { assert Lookup(m, k) == Wanted(s, k); }
    } else {
      hide Represents;
      MemberLinks(m, s, 0);
      MemberLinks(m, t, 0);
      forall i | 0 <= i < |s| ensures s[i] == t[i] { SameItem(m, s, t, i); }
    }
  }

  lemma EndsAreItems(m: map<Key, Value>, s: seq<Key>)
    requires Represents(m, s)
    ensures (HEAD in m ==> m[HEAD].Item?) && (TAIL in m ==> m[TAIL].Item?)
  {
    RepresentsAt(m, s, NoneKey);
  }

  /** A neighbour that counts as false makes remove take the wrong branch; what it leaves is no list at all. */
  lemma UnlinkBroken(m: map<Key, Value>, s: seq<Key>, j: nat, t: seq<Key>)
    requires Represents(m, s) && j < |s| && !NeighboursTruthy(s, j)
    ensures !Represents(Unlinked(m, s[j]), t)
  {
    IndexOfAt(s, j);
    hide Represents;
    MemberLinks(m, s, j);
    if Represents(Unlinked(m, s[j]), t) {
      RepresentsAt(Unlinked(m, s[j]), t, s[j]);
      assert false;
    }
  }

  /**
   * Remove is right exactly when neither neighbour counts as false. Otherwise no sequence whatever
   * describes what is left, although the count still goes down by one.
   */
  lemma RemoveExactly(m: map<Key, Value>, s: seq<Key>, j: nat)
    requires Represents(m, s) && j < |s|
    ensures NeighboursTruthy(s, j) ==> Represents(Unlinked(m, s[j]), RemoveAt(s, j))
    ensures !NeighboursTruthy(s, j) ==> forall t :: !Represents(Unlinked(m, s[j]), t)
    ensures Length(Unlinked(m, s[j])) == |s| - 1
  {
    hide Represents;
    MemberLinks(m, s, j);
    if !NeighboursTruthy(s, j) {
      forall t ensures !Represents(Unlinked(m, s[j]), t) { UnlinkBroken(m, s, j, t); }
    } else if |s| == 1 {
      UnlinkOnlyCorrect(m, s);
    } else if j == 0 {
      UnlinkFirstCorrect(m, s);
    } else if j == |s| - 1 {
      UnlinkLastCorrect(m, s);
    } else {
      UnlinkMiddleCorrect(m, s, j);
    }
  }

  /** Every entry that remove deletes is there to delete. */
  predicate CanUnlink(m: map<Key, Value>, x: Key) {
    var next, prev := Link(m, NextKey(x)), Link(m, PrevKey(x));
    if Truthy(prev) && Truthy(next) then true
    else if Truthy(next) then PrevKey(next) in m
    else if Truthy(prev) then NextKey(prev) in m
    else HEAD in m && TAIL in m
  }

  /** What a remove that fails leaves behind. */
  function HalfUnlinked(m: map<Key, Value>, x: Key): map<Key, Value> {
    var next, prev := Link(m, NextKey(x)), Link(m, PrevKey(x));
    if Truthy(next) then m[HEAD := Item(next)]
    else if Truthy(prev) then m[TAIL := Item(prev)]
    else m - {HEAD}
  }

  /**
   * Removing what is not a member fails only on the empty list, which stays as it is. Otherwise it unlinks
   * the ends: a list of one loses its item, a longer one is destroyed.
   */
  lemma RemoveAbsent(m: map<Key, Value>, s: seq<Key>, x: Key, t: seq<Key>)
    requires Represents(m, s) && x !in s
    ensures CanUnlink(m, x) <==> s != []
    ensures s == [] ==> HalfUnlinked(m, x) == m
    ensures |s| == 1 ==> Represents(Unlinked(m, x), [])
    ensures |s| > 1 ==> !Represents(Unlinked(m, x), t)
  {
    RepresentsAt(m, s, x);
    if s == [] {
      assert HEAD !in m;
    } else if |s| == 1 {
      UnlinkOnlyCorrect(m, s);
    } else if Represents(Unlinked(m, x), t) {
      RepresentsAt(Unlinked(m, x), t, x);
      assert false;
    }
  }

  lemma IndexOfAppended(s: seq<Key>, x: Key, y: Key)
    requires Distinct(s) && x !in s
    ensures Distinct(s + [x]) && Distinct([x] + s)
    ensures y in s ==> IndexOf(s + [x], y) == IndexOf(s, y) && IndexOf([x] + s, y) == IndexOf(s, y) + 1
    ensures IndexOf(s + [x], x) == |s| && IndexOf([x] + s, x) == 0
  {
    if y in s {
      var i := IndexOf(s, y);
      assert (s + [x])[i] == y && ([x] + s)[i + 1] == y;
      IndexOfAt(s + [x], i);
      IndexOfAt([x] + s, i + 1);
    }
    assert (s + [x])[|s|] == x;
    IndexOfAt(s + [x], |s|);
  }

  lemma AppendNeighbours(s: seq<Key>, x: Key, y: Key)
    requires Distinct(s) && x !in s
    ensures Before(s + [x], y) == if y == x && s != [] then Some(Item(s[|s| - 1])) else Before(s, y)
    ensures After(s + [x], y) == if s != [] && y == s[|s| - 1] then Some(Item(x)) else After(s, y)
  {
    var t := s + [x];
    IndexOfAppended(s, x, y);
    if y == x {
      assert t[|s|] == x;
      MemberNeighbours(t, |s|);
      assert y !in s;
    } else if y in s {
      var i := IndexOf(s, y);
      assert t[i] == s[i] == y && s[|s| - 1] in s;
      MemberNeighbours(s, i);
      MemberNeighbours(t, i);
    }
  }

  lemma PrependNeighbours(s: seq<Key>, x: Key, y: Key)
    requires Distinct(s) && x !in s
    ensures Before([x] + s, y) == if s != [] && y == s[0] then Some(Item(x)) else Before(s, y)
    ensures After([x] + s, y) == if y == x && s != [] then Some(Item(s[0])) else After(s, y)
  {
    var t := [x] + s;
    IndexOfAppended(s, x, y);
    if y == x {
      assert t[0] == x;
      MemberNeighbours(t, 0);
      assert y !in s;
    } else if y in s {
      var i := IndexOf(s, y);
      assert t[i + 1] == s[i] == y && s[0] in s;
      MemberNeighbours(s, i);
      MemberNeighbours(t, i + 1);
    }
  }

  lemma AppendLookup(m: map<Key, Value>, s: seq<Key>, x: Key, k: Key)
    requires Lookup(m, TAIL) == (if s == [] then None else Some(Item(s[|s| - 1]))) && Length(m) == |s|
    ensures Lookup(Appended(m, x), k) ==
            if k == COUNT then Some(Item(Int(|s| + 1)))
            else if k == TAIL || (s == [] && k == HEAD) then Some(Item(x))
            else if s != [] && k == NextKey(s[|s| - 1]) then Some(Item(x))
            else if s != [] && k == PrevKey(x) then Some(Item(s[|s| - 1]))
            else Lookup(m, k)
  {
  }

  lemma AppendCorrect(m: map<Key, Value>, s: seq<Key>, x: Key)
    requires Represents(m, s) && x !in s
    ensures Represents(Appended(m, x), s + [x])
  {
    RepresentsAt(m, s, x);
    IndexOfAppended(s, x, x);
    RepresentsUnique(m, s, s);
    hide Distinct, IndexOf, Before, After, Appended, Lookup;
    forall k ensures Lookup(Appended(m, x), k) == Wanted(s + [x], k) {
      assert Lookup(m, k) == Wanted(s, k);
      AppendLookup(m, s, x, k);
      if IsPrevKey(k) || IsNextKey(k) { AppendNeighbours(s, x, k.items[1]); }
    }
  }

  lemma PrependLookup(m: map<Key, Value>, s: seq<Key>, x: Key, k: Key)
    requires Lookup(m, HEAD) == (if s == [] then None else Some(Item(s[0]))) && Length(m) == |s|
    ensures Lookup(Prepended(m, x), k) ==
            if k == COUNT then Some(Item(Int(|s| + 1)))
            else if k == HEAD || (s == [] && k == TAIL) then Some(Item(x))
            else if s != [] && k == PrevKey(s[0]) then Some(Item(x))
            else if s != [] && k == NextKey(x) then Some(Item(s[0]))
            else Lookup(m, k)
  {
  }

  lemma PrependCorrect(m: map<Key, Value>, s: seq<Key>, x: Key)
    requires Represents(m, s) && x !in s
    ensures Represents(Prepended(m, x), [x] + s)
  {
    RepresentsAt(m, s, x);
    IndexOfAppended(s, x, x);
    RepresentsUnique(m, s, s);
    hide Distinct, IndexOf, Before, After, Prepended, Lookup;
    forall k ensures Lookup(Prepended(m, x), k) == Wanted([x] + s, k) {
      assert Lookup(m, k) == Wanted(s, k);
      PrependLookup(m, s, x, k);
      if IsPrevKey(k) || IsNextKey(k) { PrependNeighbours(s, x, k.items[1]); }
    }
  }

  lemma MembersUnlink(m: map<Key, Value>, s: seq<Key>, j: nat)
    requires Represents(m, s) && j < |s|
    ensures CanUnlink(m, s[j])
  {
    hide Represents;
    MemberLinks(m, s, j);
    if j > 0 { MemberLinks(m, s, j - 1); }
    if j + 1 < |s| { MemberLinks(m, s, j + 1); }
  }

  /** Removing the first of the items that are left at j. */
  lemma RemoveFront(m: map<Key, Value>, s: seq<Key>, j: nat)
    requires j < |s| && Represents(m, s[j..]) && AllTruthy(s[..j]) && Truthy(s[j])
    ensures CanUnlink(m, s[j]) && AllTruthy(s[..j + 1])
    ensures Link(m, NextKey(s[j])) == if j + 1 < |s| then s[j + 1] else NoneKey
    ensures j + 1 < |s| && !Truthy(s[j + 1]) ==>
              !AllTruthy(s) && Length(Unlinked(m, s[j])) > 0 && forall t :: !Represents(Unlinked(m, s[j]), t)
    ensures (j + 1 < |s| && !Truthy(s[j + 1])) || Represents(Unlinked(m, s[j]), s[j + 1..])
  {
    hide Represents, CanUnlink, Unlinked, Length;
    var t := s[j..];
    MemberLinks(m, t, 0);
    RemoveExactly(m, t, 0);
    MembersUnlink(m, t, 0);
    assert RemoveAt(t, 0) == s[j + 1..];
    assert s[..j + 1] == s[..j] + [s[j]];
  }

  // ------------------------------------------------ the same in terms of values and entries alone

  /** Remove is right exactly if neither neighbour is None, zero, the empty string or the empty tuple. */
  lemma RemoveWorksIff(m: map<Key, Value>, s: seq<Key>, j: nat)
    requires Represents(m, s) && j < |s|
    ensures Represents(Unlinked(m, s[j]), RemoveAt(s, j)) <==>
              && (j > 0 ==> s[j - 1] !in {NoneKey, Int(0), Str([]), Tuple([])})
              && (j + 1 < |s| ==> s[j + 1] !in {NoneKey, Int(0), Str([]), Tuple([])})
    ensures RemoveAt(s, j) == s[..j] + s[j + 1..]
  {
    RemoveExactly(m, s, j);
    hide Represents, Unlinked, Truthy;
    if j > 0 { FalseKeys(s[j - 1]); }
    if j + 1 < |s| { FalseKeys(s[j + 1]); }
  }

  lemma PlainIsTruthy(s: seq<Key>)
    ensures AllTruthy(s) <==> forall x | x in s :: x !in {NoneKey, Int(0), Str([]), Tuple([])}
  {
    hide Truthy;
    forall x | x in s ensures Truthy(x) <==> x !in {NoneKey, Int(0), Str([]), Tuple([])} { FalseKeys(x); }
  }

  /** The very entries of a list: head, tail and count, and two links between each item and the next. */
  lemma RawEntries(m: map<Key, Value>, s: seq<Key>, i: nat)
    requires Represents(m, s) && i < |s|
    ensures Lookup(m, Int(1)) == Some(Item(s[0])) && Lookup(m, Int(2)) == Some(Item(s[|s| - 1]))
    ensures Lookup(m, Int(3)) == Some(Item(Int(|s|)))
    ensures Lookup(m, Tuple([Int(1), s[i]])) == if i > 0 then Some(Item(s[i - 1])) else None
    ensures Lookup(m, Tuple([Int(2), s[i]])) == if i + 1 < |s| then Some(Item(s[i + 1])) else None
  {
    hide Represents;
    MemberLinks(m, s, i);
  }

  // ------------------------------------------------ runs

  datatype ListOp = AppendItem(item: Key) | PrependItem(item: Key) | RemoveItem(item: Key) | ClearAll

  function Outcome(s: seq<Key>, op: ListOp): seq<Key> {
    match op
    case AppendItem(x) => s + [x]
    case PrependItem(x) => [x] + s
    case RemoveItem(x) => if x in s then Without(s, x) else s
    case ClearAll => []
  }

  /** The operation does what it is meant to: new items are new, and no item that gets relinked is false. */
  predicate Fits(s: seq<Key>, op: ListOp) {
    match op
    case AppendItem(x) => x !in s
    case PrependItem(x) => x !in s
    case RemoveItem(x) => if x in s then NeighboursTruthy(s, IndexOf(s, x)) else s == []
    case ClearAll => AllTruthy(s)
  }

  function Contents(s: seq<Key>, ops: seq<ListOp>): seq<Key>
    decreases ops
  {
    if ops == [] then s else Contents(Outcome(s, ops[0]), ops[1..])
  }

  predicate AllFit(s: seq<Key>, ops: seq<ListOp>)
    decreases ops
  {
    ops == [] || (Fits(s, ops[0]) && AllFit(Outcome(s, ops[0]), ops[1..]))
  }

  /** New items are new and true, and what is removed is there, unless nothing is. */
  predicate WellCalled(s: seq<Key>, op: ListOp) {
    match op
    case AppendItem(x) => x !in s && Truthy(x)
    case PrependItem(x) => x !in s && Truthy(x)
    case RemoveItem(x) => x in s || s == []
    case ClearAll => true
  }

  predicate AllWellCalled(s: seq<Key>, ops: seq<ListOp>)
    decreases ops
  {
    ops == [] || (WellCalled(s, ops[0]) && AllWellCalled(Outcome(s, ops[0]), ops[1..]))
  }

  lemma WellCalledFits(s: seq<Key>, op: ListOp)
    requires AllTruthy(s)
    ensures WellCalled(s, op) <==> Fits(s, op) && AllTruthy(Outcome(s, op))
  {
  }

  /** With distinct and true items every operation of a run does what it is meant to. */
  lemma {:induction false} WellCalledRunFits(s: seq<Key>, ops: seq<ListOp>)
    requires AllTruthy(s) && AllWellCalled(s, ops)
    ensures AllFit(s, ops) && AllTruthy(Contents(s, ops))
    decreases ops
  {
    hide AllTruthy, WellCalled, Fits, Outcome;
    if ops != [] {
      WellCalledFits(s, ops[0]);
      WellCalledRunFits(Outcome(s, ops[0]), ops[1..]);
    }
  }

  /** The list object; its state is the dictionary behind it. */
  class LinkedList {
    const db: InternalRack

    constructor (db: InternalRack)
      ensures this.db == db
    {
      this.db := db;
    }

    method ReadLink(k: Key) returns (item: Key)
      ensures item == Link(db.Entries(), k)
    {
      var r := db.Get(k);
      item := if r.Some? && r.value.Item? then r.value.key else NoneKey;
    }

    method Len() returns (n: nat)
      ensures n == Length(db.Entries())
    {
      var r := db.Get(COUNT);
      n := if r.Some? && r.value.Item? && r.value.key.Int? && r.value.key.n > 0 then r.value.key.n else 0;
    }

    method Forward(ghost s: seq<Key>) returns (items: seq<Key>)
      requires Represents(db.Entries(), s)
      ensures items == s
    {
      hide Represents, View;
      items := [];
      if s != [] { MemberLinks(db.Entries(), s, 0); } else { RepresentsAt(db.Entries(), s, NoneKey); }
      var next := db.Get(HEAD);
      while next.Some?
        invariant items <= s
        invariant next == if |items| < |s| then Some(Item(s[|items|])) else None
        decreases |s| - |items|
      {
        MemberLinks(db.Entries(), s, |items|);
        var i := next.value.key;
        items := items + [i];
        next := db.Get(NextKey(i));
      }
    }

    method Reversed(ghost s: seq<Key>) returns (items: seq<Key>)
      requires Represents(db.Entries(), s)
      ensures |items| == |s| && forall i | 0 <= i < |s| :: items[i] == s[|s| - 1 - i]
    {
      hide Represents, View;
      items := [];
      if s != [] { MemberLinks(db.Entries(), s, 0); } else { RepresentsAt(db.Entries(), s, NoneKey); }
      var next := db.Get(TAIL);
      while next.Some?
        invariant |items| <= |s| && forall i | 0 <= i < |items| :: items[i] == s[|s| - 1 - i]
        invariant next == if |items| < |s| then Some(Item(s[|s| - 1 - |items|])) else None
        decreases |s| - |items|
      {
        MemberLinks(db.Entries(), s, |s| - 1 - |items|);
        var i := next.value.key;
        items := items + [i];
        next := db.Get(PrevKey(i));
      }
    }

    method Append(item: Key)
      requires TAIL in db.Entries() ==> db.Entries()[TAIL].Item?
      modifies db.db
      ensures db.Entries() == Appended(old(db.Entries()), item)
      ensures SameElsewhere(old(db.db.entries), db.db.entries, db.path, db.space)
    {
      hide View;
      var n := Len();
      db.Put(COUNT, Item(Int(n + 1)));
      var tail := db.Get(TAIL);
      if tail.None? {
        db.Put(HEAD, Item(item));
        db.Put(TAIL, Item(item));
      } else {
        db.Put(PrevKey(item), tail.value);
        db.Put(NextKey(tail.value.key), Item(item));
        db.Put(TAIL, Item(item));
      }
    }

    method Prepend(item: Key)
      requires HEAD in db.Entries() ==> db.Entries()[HEAD].Item?
      modifies db.db
      ensures db.Entries() == Prepended(old(db.Entries()), item)
      ensures SameElsewhere(old(db.db.entries), db.db.entries, db.path, db.space)
    {
      hide View;
      var n := Len();
      db.Put(COUNT, Item(Int(n + 1)));
      var head := db.Get(HEAD);
      if head.None? {
        db.Put(HEAD, Item(item));
        db.Put(TAIL, Item(item));
      } else {
        db.Put(NextKey(item), head.value);
        db.Put(PrevKey(head.value.key), Item(item));
        db.Put(HEAD, Item(item));
      }
    }

    /** Deletes two different entries, up to the first that is missing. */
    method DelBoth(k1: Key, k2: Key) returns (ok: bool)
      requires k1 != k2
      modifies db.db
      ensures ok <==> k1 in old(db.Entries()) && k2 in old(db.Entries())
      ensures db.Entries() == if k1 in old(db.Entries()) then old(db.Entries()) - {k1} - {k2} else old(db.Entries())
      ensures SameElsewhere(old(db.db.entries), db.db.entries, db.path, db.space)
    {
      hide View;
      ok := db.Del(k1);
      if ok { ok := db.Del(k2); }
    }

    method DecrementCount()
      modifies db.db
      ensures db.Entries() == Recounted(old(db.Entries()))
      ensures SameElsewhere(old(db.db.entries), db.db.entries, db.path, db.space)
    {
      var n := Len();
      var newCount := (n as int) - 1;
      if newCount != 0 { db.Put(COUNT, Item(Int(newCount))); } else { var found := db.Del(COUNT); }
    }

    /** Takes an item out, whatever the dictionary holds; false is the KeyError of a missing entry. */
    method Remove(item: Key) returns (ok: bool)
      modifies db.db
      ensures ok <==> CanUnlink(old(db.Entries()), item)
      ensures db.Entries() == if ok then Unlinked(old(db.Entries()), item) else HalfUnlinked(old(db.Entries()), item)
      ensures SameElsewhere(old(db.db.entries), db.db.entries, db.path, db.space)
    {
      hide View;
      var next := ReadLink(NextKey(item));
      var prev := ReadLink(PrevKey(item));
      if Truthy(prev) && Truthy(next) {
        db.Put(NextKey(prev), Item(next));
        db.Put(PrevKey(next), Item(prev));
        ok := DelBoth(PrevKey(item), NextKey(item));
      } else if Truthy(next) && !Truthy(prev) {
        db.Put(HEAD, Item(next));
        ok := DelBoth(PrevKey(next), NextKey(item));
      } else if Truthy(prev) {
        db.Put(TAIL, Item(prev));
        ok := DelBoth(NextKey(prev), PrevKey(item));
      } else {
        ok := DelBoth(HEAD, TAIL);
      }
      if ok { DecrementCount(); }
    }

    /** Empties the list exactly when every item counts as true; a false first item stops it at once. */
    method Clear(ghost s: seq<Key>)
      requires Represents(db.Entries(), s)
      modifies db.db
      ensures AllTruthy(s) ==> Represents(db.Entries(), [])
      ensures !AllTruthy(s) && Truthy(s[0]) ==> Length(db.Entries()) > 0 && forall t :: !Represents(db.Entries(), t)
      ensures !AllTruthy(s) && !Truthy(s[0]) ==> db.Entries() == old(db.Entries())
      ensures SameElsewhere(old(db.db.entries), db.db.entries, db.path, db.space)
    {
      hide Represents, View, CanUnlink, Unlinked, Length;
      if s != [] { MemberLinks(db.Entries(), s, 0); } else { RepresentsAt(db.Entries(), s, NoneKey); }
      var head := db.Get(HEAD);
      if head.None? { return; }
      assert s[0..] == s && s[..0] == [];
      var i := head.value.key;
      ghost var j, broken := 0, false;
      while Truthy(i)
        invariant j <= |s| && AllTruthy(s[..j])
        invariant !broken ==> Represents(db.Entries(), s[j..]) && i == if j < |s| then s[j] else NoneKey
        invariant !broken && 0 < j < |s| ==> Truthy(s[j])
        invariant broken ==> j > 0 && !Truthy(i) && !AllTruthy(s) && Length(db.Entries()) > 0
        invariant broken ==> forall t :: !Represents(db.Entries(), t)
        invariant j == 0 ==> db.Entries() == old(db.Entries())
        invariant SameElsewhere(old(db.db.entries), db.db.entries, db.path, db.space)
        decreases |s| - j
      {
        RemoveFront(db.Entries(), s, j);
        var next := ReadLink(NextKey(i));
        var ok := Remove(i);
        broken := j + 1 < |s| && !Truthy(s[j + 1]);
        i, j := next, j + 1;
      }
      if !broken && j == |s| { assert s[..j] == s && s[j..] == []; }
      if j > 0 { assert s[..j][0] == s[0]; }
    }

    /** One operation; one that fits has its meant outcome. */
    method Do(op: ListOp, ghost s: seq<Key>)
      requires Represents(db.Entries(), s) && Fits(s, op)
      modifies db.db
      ensures Represents(db.Entries(), Outcome(s, op))
      ensures SameElsewhere(old(db.db.entries), db.db.entries, db.path, db.space)
    {
      hide View, Represents, Appended, Prepended, Unlinked, CanUnlink;
      match op
      case AppendItem(x) =>
        EndsAreItems(db.Entries(), s);
        AppendCorrect(db.Entries(), s, x);
        Append(x);
      case PrependItem(x) =>
        EndsAreItems(db.Entries(), s);
        PrependCorrect(db.Entries(), s, x);
        Prepend(x);
      case RemoveItem(x) =>
        if x in s {
          RemoveExactly(db.Entries(), s, IndexOf(s, x));
          MembersUnlink(db.Entries(), s, IndexOf(s, x));
        } else {
          RemoveAbsent(db.Entries(), s, x, s);
        }
        var ok := Remove(x);
      case ClearAll =>
        Clear(s);
    }

    /** Any run of operations that all fit keeps the dictionary that of the list they are meant to give. */
    method Perform(ops: seq<ListOp>, ghost s: seq<Key>)
      requires Represents(db.Entries(), s) && AllFit(s, ops)
      modifies db.db
      ensures Represents(db.Entries(), Contents(s, ops))
      ensures SameElsewhere(old(db.db.entries), db.db.entries, db.path, db.space)
    {
      ghost var t := s;
      assert ops[0..] == ops;
      for i := 0 to |ops|
        invariant Represents(db.Entries(), t) && AllFit(t, ops[i..]) && Contents(t, ops[i..]) == Contents(s, ops)
        invariant SameElsewhere(old(db.db.entries), db.db.entries, db.path, db.space)
      {
        hide View, Represents, Fits, Outcome;
        assert ops[i..][1..] == ops[i + 1..];
        Do(ops[i], t);
        t := Outcome(t, ops[i]);
      }
    }
  }
}
