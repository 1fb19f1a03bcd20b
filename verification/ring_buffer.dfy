/** The ring buffer that Rack.py keeps in a dictionary. */
module RingBuffers {
  import opened Basics

  /** A dictionary key: a position, or one of the three special keys. */
  datatype Slot = At(i: int) | Head | Count | Size

  datatype Cell<T> = Num(n: int) | Node(value: T)

  /** How many items were stored after the one at position p, if the next goes to head. */
  function Newer(head: nat, p: nat, size: nat): int {
    if p < head then head - 1 - p else head - 1 - p + size
  }

  /** What a ring buffer of the size given, with contents s from oldest to newest, keeps under the key k. */
  function Wanted<T>(head: nat, size: nat, s: seq<T>, k: Slot): Option<Cell<T>> {
    match k
    case Head => Some(Num(head))
    case Count => Some(Num(|s|))
    case Size => Some(Num(size))
    case At(p) =>
      if 0 <= p < size && 0 <= Newer(head, p, size) < |s| then Some(Node(s[|s| - 1 - Newer(head, p, size)])) else None
  }

  ghost predicate Represents<T(!new)>(db: map<Slot, Cell<T>>, head: nat, size: nat, s: seq<T>) {
    head < size && |s| <= size && forall k :: Lookup(db, k) == Wanted(head, size, s, k)
  }

  /** The position the code computes for the i-th oldest of count items. */
  function Position(head: nat, count: nat, i: int, size: nat): (p: nat)
    requires size > 0
    ensures p < size
  {
    (head - count + i) % size
  }

  lemma ModUnique(x: int, q: int, size: nat, r: nat)
    requires size > 0 && r < size && x == q * size + r
    ensures x % size == r
  {
    var d := x / size - q;
    assert x == x / size * size + x % size;
    assert d * size == r - x % size;
    assert (d > 0 ==> d * size >= size) && (d < 0 ==> d * size + size <= 0);
  }

  lemma PositionIs(head: nat, count: nat, i: nat, size: nat)
    requires head < size && i <= size && count <= size
    ensures var x := head - count + i;
            Position(head, count, i, size) == if x < 0 then x + size else if x < size then x else x - size
    ensures i < count ==> Newer(head, Position(head, count, i, size), size) == count - 1 - i
    ensures count <= i < size ==> Newer(head, Position(head, count, i, size), size) >= count
  {
    var x := head - count + i;
    ModUnique(x, if x < 0 then -1 else if x < size then 0 else 1, size,
              if x < 0 then x + size else if x < size then x else x - size);
  }

  /** Positions wrap around with the size of the ring. */
  lemma PositionWraps(head: nat, count: nat, i: int, size: nat)
    requires size > 0
    ensures Position(head, count, i, size) == Position(head, count, i % size, size)
  {
    var x := head - count + i % size;
    assert i == i / size * size + i % size;
    assert (x / size + i / size) * size == x / size * size + i / size * size;
    ModUnique(head - count + i, x / size + i / size, size, x % size);
  }

  /** Moving the key by a step moves it to the item that many places on. */
  lemma PositionStep(head: nat, count: nat, i: int, size: nat, step: int)
    requires size > 0
    ensures (Position(head, count, i, size) + step) % size == Position(head, count, i + step, size)
  {
    var x := head - count + i;
    var y := x % size + step;
    assert x == x / size * size + x % size;
    assert (x / size + y / size) * size == x / size * size + y / size * size;
    ModUnique(x + step, x / size + y / size, size, y % size);
  }

  // ---------------------------------------------------------------- the operations on the dictionary

  function Pushed<T>(s: seq<T>, x: T, size: nat): seq<T>
    requires |s| <= size && size > 0
  {
    if |s| < size then s + [x] else s[1..] + [x]
  }

  lemma PushedLength<T>(s: seq<T>, x: T, size: nat)
    requires |s| <= size && size > 0
    ensures |Pushed(s, x, size)| == if |s| < size then |s| + 1 else |s|
  {
  }

  lemma PushCorrect<T(!new)>(db: map<Slot, Cell<T>>, head: nat, head': nat, size: nat, s: seq<T>, x: T)
    requires Represents(db, head, size, s) && head' == if head + 1 == size then 0 else head + 1
    ensures Represents(db[At(head) := Node(x)][Head := Num(head')][Count := Num(|Pushed(s, x, size)|)],
                       head', size, Pushed(s, x, size))
  {
    var t := Pushed(s, x, size);
    var db' := db[At(head) := Node(x)][Head := Num(head')][Count := Num(|t|)];
    forall k ensures Lookup(db', k) == Wanted(head', size, t, k) {
      assert Lookup(db, k) == Wanted(head, size, s, k);
      if k.At? && 0 <= k.i < size && k.i != head {
        assert Newer(head', k.i, size) == Newer(head, k.i, size) + 1;
      }
    }
  }

  lemma PopCorrect<T(!new)>(db: map<Slot, Cell<T>>, head: nat, size: nat, s: seq<T>)
    requires Represents(db, head, size, s) && s != []
    ensures var p := Position(head, |s|, 0, size);
            At(p) in db && Represents((db - {At(p)})[Count := Num(|s| - 1)], head, size, s[1..])
  {
    var p := Position(head, |s|, 0, size);
    PositionIs(head, |s|, 0, size);
    assert Lookup(db, At(p)) == Wanted(head, size, s, At(p));
    forall k ensures Lookup((db - {At(p)})[Count := Num(|s| - 1)], k) == Wanted(head, size, s[1..], k) {
      assert Lookup(db, k) == Wanted(head, size, s, k);
    }
  }

  /** The item at an index that wraps around the ring; None is a place without an item, the source's KeyError. */
  function ItemAround<T>(s: seq<T>, size: nat, i: int): Option<T>
    requires size > 0
  {
    if i % size < |s| then Some(s[i % size]) else None
  }

  lemma ItemAt<T(!new)>(db: map<Slot, Cell<T>>, head: nat, size: nat, s: seq<T>, i: int)
    requires Represents(db, head, size, s)
    ensures var cell := Lookup(db, At(Position(head, |s|, i, size)));
            cell == match ItemAround(s, size, i) case None => None case Some(x) => Some(Node(x))
  {
    PositionWraps(head, |s|, i, size);
    PositionIs(head, |s|, i % size, size);
    var k := At(Position(head, |s|, i, size));
    assert Lookup(db, k) == Wanted(head, size, s, k);
  }

  /** The items at n indices from first on, step by step around the ring; places without an item are skipped. */
  function Picked<T>(s: seq<T>, size: nat, first: int, step: int, n: int): seq<T>
    requires size > 0
    decreases n
  {
    if n <= 0 then []
    else
      var rest := Picked(s, size, first + step, step, n - 1);
      match ItemAround(s, size, first)
      case None => rest
      case Some(x) => [x] + rest
  }

  lemma InRange<T>(s: seq<T>, size: nat, i: nat)
    requires i < |s| <= size
    ensures ItemAround(s, size, i) == Some(s[i])
  {
    ModUnique(i, 0, size, i);
  }

  /** Picking forwards within range gives a slice. */
  lemma {:induction false} PickedSlice<T>(s: seq<T>, size: nat, a: nat, b: nat)
    requires a <= b <= |s| <= size && size > 0
    ensures Picked(s, size, a, 1, b - a) == s[a..b]
    decreases b - a
  {
    if a < b {
      InRange(s, size, a);
      PickedSlice(s, size, a + 1, b);
      assert s[a..b] == [s[a]] + s[a + 1..b];
    }
  }

  /** Picking backwards within range gives the slice in reverse. */
  lemma {:induction false} PickedReverse<T>(s: seq<T>, size: nat, a: nat, b: nat)
    requires a <= b <= |s| <= size && size > 0
    ensures var items := Picked(s, size, b - 1, -1, b - a);
            |items| == b - a && forall j | 0 <= j < b - a :: items[j] == s[b - 1 - j]
    decreases b - a
  {
    if a < b {
      InRange(s, size, b - 1);
      PickedReverse(s, size, a, b - 1);
    }
  }

  /** In a full ring every place has an item, so the items go round and round, a step at a time. */
  lemma {:induction false} PickedFull<T>(s: seq<T>, size: nat, first: int, step: int, n: nat)
    requires |s| == size > 0
    ensures var items := Picked(s, size, first, step, n);
            |items| == n && forall j | 0 <= j < n :: items[j] == s[(first + j * step) % size]
    decreases n
  {
    if n > 0 {
      PickedFull(s, size, first + step, step, n - 1);
      var items, rest := Picked(s, size, first, step, n), Picked(s, size, first + step, step, n - 1);
      forall j | 0 <= j < n ensures items[j] == s[(first + j * step) % size] {
        if j > 0 { assert items[j] == rest[j - 1] && first + j * step == first + step + (j - 1) * step; }
      }
    }
  }

  lemma PickedAround<T>(done: seq<T>, s: seq<T>, size: nat, first: int, step: int, n: int)
    requires size > 0 && n > 0
    ensures var rest := Picked(s, size, first + step, step, n - 1);
            done + Picked(s, size, first, step, n) ==
            match ItemAround(s, size, first) case None => done + rest case Some(x) => done + [x] + rest
  {
    hide ItemAround;
  }

  lemma PickedNone<T>(done: seq<T>, s: seq<T>, size: nat, first: int, step: int, n: int)
    requires size > 0 && n <= 0
    ensures done + Picked(s, size, first, step, n) == done
  {
  }

  /** The items that the most recent ones up to a limit are; a negative limit leaves out that many of the oldest. */
  function Latest<T>(s: seq<T>, limit: Option<int>): seq<T> {
    if limit.None? || limit.value >= |s| then s
    else if limit.value >= 0 then s[|s| - limit.value..]
    else if -limit.value <= |s| then s[-limit.value..]
    else []
  }

  /** A slice bound with its default, and a negative one counted from the end. */
  function Bound(bound: Option<int>, default: int, count: nat): int {
    match bound
    case None => default
    case Some(n) => if n < 0 then n + count else n
  }

  /** A step that is missing or zero counts as one. */
  function StepOf(step: Option<int>): (k: int)
    ensures k != 0
  {
    if step.None? || step.value == 0 then 1 else step.value
  }

  function NumOf<T>(db: map<Slot, Cell<T>>, k: Slot): nat {
    if k in db && db[k].Num? && db[k].n >= 0 then db[k].n else 0
  }

  lemma SpecialKeys<T(!new)>(db: map<Slot, Cell<T>>, head: nat, size: nat, s: seq<T>)
    requires Represents(db, head, size, s)
    ensures Lookup(db, Head) == Some(Num(head)) && Lookup(db, Count) == Some(Num(|s|))
    ensures Lookup(db, Size) == Some(Num(size))
  {
    assert Lookup(db, Head) == Wanted(head, size, s, Head) && Lookup(db, Count) == Wanted(head, size, s, Count)
        && Lookup(db, Size) == Wanted(head, size, s, Size);
  }

  lemma FreshRing<T(!new)>(size: nat)
    requires size > 0
    ensures Represents<T>(map[Head := Num(0), Count := Num(0), Size := Num(size)], 0, size, [])
  {
    var db: map<Slot, Cell<T>> := map[Head := Num(0), Count := Num(0), Size := Num(size)];
    forall k ensures Lookup(db, k) == Wanted<T>(0, size, [], k) {}
  }

  lemma OnlyInRange<T(!new)>(db: map<Slot, Cell<T>>, head: nat, size: nat, s: seq<T>)
    requires Represents(db, head, size, s)
    ensures forall k | k in db && k.At? :: 0 <= k.i < size
  {
    forall k | k in db && k.At? ensures 0 <= k.i < size { assert Lookup(db, k) == Wanted(head, size, s, k); }
  }

  lemma PushedEntries<T>(db: map<Slot, Cell<T>>, head: nat, head': nat, count: nat, count': nat, x: T)
    requires Lookup(db, Count) == Some(Num(count))
    ensures var db1 := db[At(head) := Node(x)][Head := Num(head')];
            && db1[Count := Num(count')] == db[At(head) := Node(x)][Head := Num(head')][Count := Num(count')]
            && (count == count' ==> db1 == db[At(head) := Node(x)][Head := Num(head')][Count := Num(count')])
  {
  }

  lemma PoppedEntries<T>(db: map<Slot, Cell<T>>, p: nat, count: nat, count': nat)
    ensures (db - {At(p)})[Count := Num(count')] == (db[Count := Num(count)] - {At(p)})[Count := Num(count')]
  {
  }

  // ---------------------------------------------------------------- slices with a step

  /** What a slice with a step means for a list; a negative step begins at the upper end, as in the source. */
  function Strided<T>(s: seq<T>, a: int, b: int, step: int): seq<T>
    requires 0 <= a && b <= |s| && step != 0
    decreases b - a
  {
    if b <= a then []
    else if step > 0 then [s[a]] + Strided(s, a + step, b, step)
    else [s[b - 1]] + Strided(s, a, b + step, step)
  }

  /** The j-th step lands on an item, having left a range of this width. */
  ghost predicate Extra(count: nat, size: nat, first: int, step: int, width: int, j: int)
    requires size > 0
  {
    j * (if step < 0 then -step else step) >= width && (first + j * step) % size < count
  }

  ghost predicate NoExtras(count: nat, size: nat, first: int, step: int, width: int, n: int)
    requires size > 0
  {
    forall j | 0 <= j < n :: !Extra(count, size, first, step, width, j)
  }

  lemma ExtraNext(count: nat, size: nat, first: int, step: int, width: int, j: int)
    requires size > 0
    ensures var d := if step < 0 then -step else step;
            Extra(count, size, first, step, width, j + 1) == Extra(count, size, first + step, step, width - d, j)
  {
    assert first + (j + 1) * step == first + step + j * step;
  }

  lemma NoExtrasNext(count: nat, size: nat, first: int, step: int, width: int, n: nat)
    requires size > 0 && n > 0
    ensures var d := if step < 0 then -step else step;
            NoExtras(count, size, first, step, width, n) <==>
              !Extra(count, size, first, step, width, 0) && NoExtras(count, size, first + step, step, width - d, n - 1)
  {
    hide Extra;
    var next, width' := first + step, width - if step < 0 then -step else step;
    forall j: nat | j < n - 1
      ensures Extra(count, size, first, step, width, j + 1) == Extra(count, size, next, step, width', j)
    {
      ExtraNext(count, size, first, step, width, j);
    }
    if NoExtras(count, size, next, step, width', n - 1) && !Extra(count, size, first, step, width, 0) {
      forall j | 0 <= j < n ensures !Extra(count, size, first, step, width, j) {
        assert j > 0 ==> !Extra(count, size, next, step, width', j - 1);
      }
    }
    if NoExtras(count, size, first, step, width, n) {
      forall j | 0 <= j < n - 1 ensures !Extra(count, size, next, step, width', j) {
        assert !Extra(count, size, first, step, width, j + 1);
      }
    }
  }

  lemma PickOne<T>(s: seq<T>, size: nat, first: int, step: int, n: nat)
    requires size > 0 && n > 0
    ensures var rest := Picked(s, size, first + step, step, n - 1);
            Picked(s, size, first, step, n) == if first % size < |s| then [s[first % size]] + rest else rest
  {
  }

  lemma StrideOne<T>(s: seq<T>, a: int, b: int, step: int)
    requires 0 <= a && b <= |s| && step != 0
    ensures Strided(s, a, b, step) ==
            if b <= a then []
            else if step > 0 then [s[a]] + Strided(s, a + step, b, step)
            else [s[b - 1]] + Strided(s, a, b + step, step)
  {
  }

  lemma SameTail<T>(x: T, a: seq<T>, b: seq<T>)
    ensures [x] + a == [x] + b <==> a == b
  {
    assert ([x] + a)[1..] == a && ([x] + b)[1..] == b;
  }

  lemma FewerSteps(n: nat, d: nat, width: int)
    requires n > 0 && n * d >= width
    ensures (n - 1) * d >= width - d
  {
  }

  /** With n steps enough to leave the range, the list slice comes out iff no step beyond the range finds an item. */
  lemma {:induction false} StridedIff<T>(s: seq<T>, size: nat, a: int, b: int, step: int, n: nat)
    requires |s| <= size && size > 0 && 0 <= a && b <= |s| && step != 0
    requires n * (if step < 0 then -step else step) >= b - a
    ensures var first := if step < 0 then b - 1 else a;
            Picked(s, size, first, step, n) == Strided(s, a, b, step) <==> NoExtras(|s|, size, first, step, b - a, n)
    decreases n
  {
    var first := if step < 0 then b - 1 else a;
    StrideOne(s, a, b, step);
    if n > 0 {
      var a', b' := if step < 0 then a else a + step, if step < 0 then b + step else b;
      PickOne(s, size, first, step, n);
      NoExtrasNext(|s|, size, first, step, b - a, n);
      FewerSteps(n, if step < 0 then -step else step, b - a);
      StridedIff(s, size, a', b', step, n - 1);
      StrideOne(s, a', b', step);
      if a < b {
        ModUnique(first, 0, size, first);
        SameTail(s[first], Picked(s, size, first + step, step, n - 1), Strided(s, a', b', step));
      }
      hide Picked, Strided, NoExtras;
    }
  }

  lemma Widens(n: nat, d: nat, e: nat)
    requires e <= d
    ensures n * e <= n * d
  {
    assert n * d == n * e + n * (d - e);
  }

  lemma FullExtra(size: nat, first: int, step: int, width: int, j: int)
    requires size > 0
    ensures Extra(size, size, first, step, width, j) <==> j * (if step < 0 then -step else step) >= width
  {
  }

  lemma FullExtras(size: nat, first: int, step: int, n: nat)
    requires size > 0 && step != 0
    ensures NoExtras(size, size, first, step, n, n) <==> n <= 1 || step == 1 || step == -1
  {
    hide Extra;
    var d := if step < 0 then -step else step;
    if n > 1 && d > 1 {
      Widens(n - 1, d, 2);
      FullExtra(size, first, step, n, n - 1);
      assert Extra(size, size, first, step, n, n - 1);
    } else {
      forall j: nat | j < n ensures !Extra(size, size, first, step, n, j) {
        FullExtra(size, first, step, n, j);
      }
    }
  }

  /** In a full ring a slice is the list slice iff its step is 1 or -1, or it has at most one item. */
  lemma FullStridedIff<T>(s: seq<T>, a: nat, b: nat, step: int)
    requires a <= b <= |s| && s != [] && step != 0
    ensures var first := if step < 0 then b - 1 else a;
            Picked(s, |s|, first, step, b - a) == Strided(s, a, b, step) <==> b - a <= 1 || step == 1 || step == -1
  {
    hide *;
    Widens(b - a, if step < 0 then -step else step, 1);
    StridedIff(s, |s|, a, b, step, b - a);
    FullExtras(|s|, if step < 0 then b - 1 else a, step, b - a);
  }

  /**
   * The items of a slice: a missing bound is an end, a negative one counts from the end, and a step that is
   * missing or zero is one. As many places are visited as the bounds are apart, backwards for a negative step.
   */
  ghost predicate IsSlice<T>(items: seq<T>, s: seq<T>, size: nat,
                             start: Option<int>, stop: Option<int>, step: Option<int>)
    requires size > 0
  {
    var a := if start.None? then 0 else if start.value < 0 then start.value + |s| else start.value;
    var b := if stop.None? then |s| else if stop.value < 0 then stop.value + |s| else stop.value;
    var k := if step.None? || step.value == 0 then 1 else step.value;
    items == Picked(s, size, if k < 0 then b - 1 else a, k, b - a)
  }

  /** The slices [::-1] and, in a full ring, [::2], which goes round twice. */
  lemma WholeSlices<T>(items: seq<T>, s: seq<T>, size: nat)
    requires |s| <= size && size > 0
    ensures IsSlice(items, s, size, None, None, Some(-1)) ==>
              |items| == |s| && forall j | 0 <= j < |s| :: items[j] == s[|s| - 1 - j]
    ensures IsSlice(items, s, size, None, None, Some(2)) && |s| == size ==>
              |items| == |s| && forall j | 0 <= j < |s| :: items[j] == s[2 * j % |s|]
  {
    hide Picked;
    PickedReverse(s, size, 0, |s|);
    if |s| == size {
      PickedFull(s, size, 0, 2, size);
      assert forall j | 0 <= j < size :: 0 + j * 2 == 2 * j;
    }
  }

  lemma LatestSlice<T>(items: seq<T>, s: seq<T>, size: nat, limit: Option<int>, n: int)
    requires |s| <= size && size > 0
    requires n == if limit.None? || limit.value > |s| then |s| else limit.value
    ensures n == 0 ==> Latest(s, limit) == []
    ensures n != 0 && IsSlice(items, s, size, Some(-n), None, None) ==> items == Latest(s, limit)
  {
    hide Picked;
    var a := if n < 0 then -n else |s| - n;
    assert s[0..] == s && s[|s|..] == [];
    if a <= |s| {
      PickedSlice(s, size, a, |s|);
      assert s[a..|s|] == s[a..] == Latest(s, limit);
    } else {
      PickedNone([], s, size, a, 1, |s| - a);
      assert [] + Picked(s, size, a, 1, |s| - a) == Picked(s, size, a, 1, |s| - a);
    }
  }

  class RingBuffer<T(!new)> {
    const newSize: nat
    var db: map<Slot, Cell<T>>
    var head: nat
    var count: nat
    var size: nat
    /** The items in the buffer, oldest first. */
    ghost var contents: seq<T>

    constructor (newSize: nat)
      requires newSize > 0
      ensures this.newSize == newSize && db == map[] && contents == [] && Valid()
    {
      this.newSize, db, head, count, size, contents := newSize, map[], 0, 0, 0, [];
    }

    /** The dictionary is empty, or holds the contents in a ring of the size it was created with. */
    ghost predicate Valid()
      reads this
    {
      && newSize > 0
      && if Size !in db then db == map[] && contents == []
         else NumOf(db, Size) > 0 && Represents(db, NumOf(db, Head), NumOf(db, Size), contents)
    }

    ghost function Capacity(): nat
      reads this
    {
      if Size !in db then newSize else NumOf(db, Size)
    }

    ghost predicate Loaded()
      reads this
    {
      size > 0 && count == |contents| && Represents(db, head, size, contents)
    }

    /** Caches the special keys, creating them if asked; false is the KeyError of a missing one. */
    method Load(create: bool) returns (ok: bool)
      requires Valid()
      modifies this`db, this`head, this`count, this`size
      ensures ok <==> create || Size in old(db)
      ensures ok ==> Loaded() && size == old(Capacity())
      ensures Size in old(db) || !create ==> db == old(db)
      ensures Valid() && Capacity() == old(Capacity())
    {
      if Size !in db {
        if !create { return false; }
        db := map[Head := Num(0), Count := Num(0), Size := Num(newSize)];
        FreshRing<T>(newSize);
      }
      SpecialKeys(db, NumOf(db, Head), NumOf(db, Size), contents);
      head, count, size := db[Head].n, db[Count].n, db[Size].n;
      ok := true;
    }

    lemma ContentsFit()
      requires Valid()
      ensures newSize > 0 && |contents| <= Capacity() && (Size !in db ==> contents == [])
    {
    }

    lemma LoadedInRange()
      requires Loaded()
      ensures head < size && count == |contents| <= size
      ensures Represents(db, head, size, contents) && Lookup(db, Count) == Some(Num(count))
    {
      SpecialKeys(db, head, size, contents);
    }

    lemma RepresentedValid()
      requires newSize > 0 && size > 0 && Represents(db, head, size, contents)
      ensures Valid() && Capacity() == size
    {
      SpecialKeys(db, head, size, contents);
    }

    /** Adds an item, pushing out the oldest one if the buffer is full. */
    method Push(node: T)
      requires Valid()
      modifies this
      ensures Valid() && Capacity() == old(Capacity())
      ensures |old(contents)| <= Capacity()
      ensures contents == (if |old(contents)| < Capacity() then old(contents) else old(contents)[1..]) + [node]
    {
      ContentsFit();
      hide *;
      var ok := Load(true);
      LoadedInRange();
      ghost var s, db0, head0 := contents, db, head;
      PushedLength(s, node, size);
      db := db[At(head) := Node(node)];
      head := head + 1;
      if head >= size { head := head - size; }
      db := db[Head := Num(head)];
      if count < size {
        count := count + 1;
        db := db[Count := Num(count)];
      }
      contents := Pushed(s, node, size);
      PushCorrect(db0, head0, head, size, s, node);
      PushedEntries(db0, head0, head, |s|, |contents|, node);
      RepresentedValid();
    }

    /** In the middle of a pop the stored count lags behind; apart from that all is well. */
    ghost predicate Popping(key: nat)
      reads this
    {
      && size > 0 && head < size && count == |contents| <= size
      && Head in db && Count in db && Lookup(db, Size) == Some(Num(size))
      && Represents(db[Count := Num(count)], head, size, contents)
      && (count > 0 ==> key == Position(head, count, 0, size))
    }

    method PopOne(key: nat) returns (next: nat)
      requires Popping(key) && count > 0
      modifies this`db, this`count, this`contents
      ensures Popping(next) && count == old(count) - 1 && contents == old(contents)[1..]
      ensures NumOf(db, Size) == old(NumOf(db, Size))
    {
      hide Represents;
      ghost var before := db[Count := Num(count)];
      PopCorrect(before, head, size, contents);
      PositionIs(head, count, 0, size);
      PositionIs(head, count, 1, size);
      if count > 1 { PositionIs(head, count - 1, 0, size); }
      db := db - {At(key)};
      next := key + 1;
      if next == size { next := 0; }
      count, contents := count - 1, contents[1..];
      PoppedEntries(old(db), key, old(count), count);
    }

    /** Deletes the n oldest items, or all there are. */
    method Pop(n: int)
      requires Valid()
      modifies this
      ensures Valid() && Capacity() == old(Capacity())
      ensures Size !in old(db) ==> db == old(db)
      ensures contents == old(contents)[if n < 0 then 0 else if n < |old(contents)| then n else |old(contents)|..]
    {
      var ok := Load(false);
      if !ok { return; }
      LoadedInRange();
      PositionIs(head, count, 0, size);
      ghost var s := contents;
      var key, left := Position(head, count, 0, size), n;
      SpecialKeys(db, head, size, contents);
      assert db[Count := Num(count)] == db;
      while left > 0 && count > 0
        invariant Popping(key) && left <= n && (left < n ==> left >= 0)
        invariant count == |s| - (n - left) && contents == s[n - left..] && Capacity() == old(Capacity())
        decreases count
      {
        hide Represents;
        key := PopOne(key);
        left := left - 1;
      }
      db := db[Count := Num(count)];
      SpecialKeys(db, head, size, contents);
    }

    /** Deletes everything; the dictionary is left empty. */
    method Clear()
      requires Valid()
      modifies this
      ensures Valid() && db == map[] && contents == []
    {
      var ok := Load(false);
      if !ok { return; }
      OnlyInRange(db, head, size, contents);
      SpecialKeys(db, head, size, contents);
      ghost var n := size;
      for i := 0 to size
        invariant size == n && Head in db && Count in db && Size in db
        invariant forall k | k in db && k.At? :: i <= k.i < size
      {
        if At(i) in db { db := db - {At(i)}; }
      }
      ghost var left := db;
      assert forall k | k in left :: !k.At?;
      db := db - {Count};
      db := db - {Head};
      db := db - {Size};
      contents := [];
      forall k ensures k !in db { assert k in db ==> k in left && !k.At?; }
    }

    lemma KeyIsPosition(key: int, first: int)
      requires size > 0 && key == head - count + first
      ensures key % size == Position(head, count, first, size)
    {
    }

    /** The general iterator: n items from a key on, step by step around the ring. */
    method Iter(key0: int, n: int, step: int, ghost first: int) returns (items: seq<T>)
      requires Loaded() && key0 == head - count + first
      ensures items == Picked(contents, size, first, step, n)
    {
      hide Represents, Position, Picked, ItemAround;
      var key, left := key0 % size, n;
      ghost var at := first;
      items := [];
      KeyIsPosition(key0, first);
      while left > 0
        invariant key == Position(head, count, at, size)
        invariant items + Picked(contents, size, at, step, left) == Picked(contents, size, first, step, n)
        decreases left
      {
        ItemAt(db, head, size, contents, at);
        PositionStep(head, count, at, size, step);
        PickedAround(items, contents, size, at, step, left);
        if At(key) in db && db[At(key)].Node? {
          items := items + [db[At(key)].value];
        }
        key, left, at := (key + step) % size, left - 1, at + step;
      }
      PickedNone(items, contents, size, at, step, left);
    }

    method Iterate() returns (items: seq<T>)
      requires Valid()
      modifies this`db, this`head, this`count, this`size
      ensures Valid() && db == old(db) && items == contents
    {
      var ok := Load(false);
      if !ok { return []; }
      LoadedInRange();
      PickedSlice(contents, size, 0, count);
      items := Iter(head - count, count, 1, 0);
    }

    method Len() returns (n: nat)
      requires Valid()
      modifies this`db, this`head, this`count, this`size
      ensures Valid() && db == old(db) && n == |contents|
    {
      var ok := Load(false);
      n := if ok then count else 0;
    }

    /** The item at any index, negative ones counted from the end; None is the source's KeyError. */
    method GetItem(i: int) returns (item: Option<T>)
      requires Valid()
      modifies this`db, this`head, this`count, this`size
      ensures Valid() && db == old(db) && Capacity() == old(Capacity()) > 0
      ensures item == ItemAround(contents, Capacity(), if i < 0 then i + |contents| else i)
      ensures -|contents| <= i < |contents| ==> item == Some(contents[if i < 0 then i + |contents| else i])
    {
      var ok := Load(false);
      if !ok { return None; }
      LoadedInRange();
      var j := if i < 0 then i + count else i;
      ItemAt(db, head, size, contents, j);
      if 0 <= j < count { InRange(contents, size, j); }
      var key := At((head - count + j) % size);
      item := if key in db && db[key].Node? then Some(db[key].value) else None;
    }

    /** Any slice with any step. Nothing is cut off at the ends: it goes on around the ring. */
    method GetSlice(start: Option<int>, stop: Option<int>, step: Option<int>) returns (items: Option<seq<T>>)
      requires Valid()
      modifies this`db, this`head, this`count, this`size
      ensures Valid() && db == old(db) && Capacity() == old(Capacity()) > 0
      ensures items.None? <==> Size !in db
      ensures items.Some? ==> IsSlice(items.value, contents, Capacity(), start, stop, step)
    {
      var ok := Load(false);
      if !ok { return None; }
      hide Represents, Picked;
      var a, b := Bound(start, 0, count), Bound(stop, count, count);
      var k := StepOf(step);
      var key := if k < 0 then head - count + b - 1 else head - count + a;
      var got := Iter(key, b - a, k, if k < 0 then b - 1 else a);
      items := Some(got);
    }

    /** The last items pushed, up to a limit; None is the KeyError of a negative limit before the first push. */
    method GetLatest(limit: Option<int>) returns (items: Option<seq<T>>)
      requires Valid()
      modifies this`db, this`head, this`count, this`size
      ensures Valid() && db == old(db)
      ensures items.None? <==> limit.Some? && limit.value < 0 && Size !in db
      ensures items.Some? ==> items.value == Latest(contents, limit)
    {
      var total := Len();
      var n := if limit.None? || limit.value > total then total else limit.value;
      ContentsFit();
      LatestSlice<T>([], contents, Capacity(), limit, n);
      hide *;
      if n == 0 { return Some([]); }
      items := GetSlice(Some(-n), None, None);
      if items.Some? { LatestSlice(items.value, contents, Capacity(), limit, n); }
    }
  }
}
