/**
 Insertions that grow the table. The start slot and the key found there are read before
 the table is rehashed and used after it: when that is harmless, exactly, and what is lost
 when it is not. Also the reserved key, the other way an insertion departs from the map.
 */
module GrowingInsert {
  import opened Counting
  import opened TriangularProbing
  import opened HashTable
  import opened JenkinsHash

  // The slot a growing insertion fills in the grown table.
  function GrownTarget(h: HashFn, t: Table, key: string): int
    requires Valid(h, t) && IsTableSize(2 * |t.items|)
  {
    var index := Home(h, key, |t.items|);
    GrownHasRoom(h, t, index, key);
    Target(Grown(h, t).items, index, t.items[index], key)
  }

  // Whether the insertion does what a map insertion does.
  ghost predicate InsertIsMapInsert(h: HashFn, t: Table, key: string, value: nat)
    requires Insertable(h, t, key)
  {
    var m := Contents(t.items);
    var r := Insert(h, t, key, value);
    && Valid(h, r.0)
    && r.1 == (if key in m then 0 else 1)
    && Contents(r.0.items) == (if key in m then m else m[key := value])
  }

  // Step n of the probe from index is at a free slot, and steps i to n - 1 are not.
  ghost predicate FreeAt(items: seq<Item>, index: nat, i: nat, n: nat)
    requires |items| > 0
  {
    && i <= n && items[ProbeAt(index, n, |items|)].Null?
    && forall j :: i <= j < n ==> items[ProbeAt(index, j, |items|)].Held?
  }

  // The probe from index, entered at step i, ends at the free slot p.
  ghost predicate EndsFree(items: seq<Item>, index: nat, i: nat, p: nat)
    requires |items| > 0
  {
    exists n :: FreeAt(items, index, i, n) && ProbeAt(index, n, |items|) == p
  }

  // Step n of the probe from index meets the key, and steps 1 to n - 1 no free slot.
  ghost predicate KeyAt(items: seq<Item>, index: nat, key: string, n: nat)
    requires |items| > 0
  {
    var it := items[ProbeAt(index, n, |items|)];
    && 1 <= n && it.Held? && SameKey(it.key, key)
    && forall j :: 1 <= j < n ==> items[ProbeAt(index, j, |items|)].Held?
  }

  ghost predicate MeetsKey(items: seq<Item>, index: nat, key: string)
    requires |items| > 0
  {
    exists n :: KeyAt(items, index, key, n)
  }

  // Where the stale start slot does no harm. A stored key must lie in the old home slot, or be met
  // in the grown table by the probe that starts there. For a new key that probe must end at the very
  // free slot where the key's own probe ends; it does not move when the old home slot was free or
  // removed.
  ghost predicate GrowthLands(h: HashFn, t: Table, key: string)
    requires Valid(h, t) && IsTableSize(2 * |t.items|)
  {
    var items, index := Grown(h, t).items, Home(h, key, |t.items|);
    var cur, home := t.items[index], Home(h, key, |items|);
    if key in Contents(t.items) then (cur.Held? && SameKey(cur.key, key)) || MeetsKey(items, index, key)
    else if Live(cur) then exists p :: EndsFree(items, index, 1, p) && EndsFree(items, home, 0, p)
    else EndsFree(items, home, 0, index)
  }

  // The same of the slot the insertion picks.
  ghost predicate TargetLands(h: HashFn, t: Table, key: string)
    requires Valid(h, t) && IsTableSize(2 * |t.items|)
  {
    var items := Grown(h, t).items;
    var w := GrownTarget(h, t, key);
    if key in Contents(t.items) then w == -1
    else w >= 0 && items[w].Null? && Reached(items, Home(h, key, |items|), w)
  }

  // A probe that starts at step 0 meets its first free slot within one lap.
  lemma FreeIsEarly(items: seq<Item>, home: nat, n: nat)
    requires IsTableSize(|items|) && FreeAt(items, home, 0, n)
    ensures n < |items|
  {
    ProbesCoverTable(home, ProbeAt(home, n, |items|), |items|);
    var j :| 0 <= j < |items| && ProbeAt(home, j, |items|) == ProbeAt(home, n, |items|);
  }

  lemma ReachedIsFree(items: seq<Item>, home: nat, p: nat, i: nat)
    requires |items| > 0 && p < |items| && items[p].Null? && ReachedBy(items, home, p, i)
    ensures FreeAt(items, home, 0, i)
  {
  }

  lemma FreeIsReached(items: seq<Item>, home: nat, p: nat, n: nat)
    requires |items| > 0 && FreeAt(items, home, 0, n) && ProbeAt(home, n, |items|) == p
    ensures ReachedBy(items, home, p, n) && items[p].Null?
  {
  }

  // On the key's own path a free slot is reached exactly when its probe ends there.
  lemma OwnFree(items: seq<Item>, home: nat, p: nat)
    requires IsTableSize(|items|) && p < |items|
    ensures EndsFree(items, home, 0, p) <==> items[p].Null? && Reached(items, home, p)
  {
    if items[p].Null? && Reached(items, home, p) {
      var i :| 0 <= i < |items| && ReachedBy(items, home, p, i);
      ReachedIsFree(items, home, p, i);
    }
    if EndsFree(items, home, 0, p) {
      var n :| FreeAt(items, home, 0, n) && ProbeAt(home, n, |items|) == p;
      FreeIsEarly(items, home, n);
      FreeIsReached(items, home, p, n);
    }
  }

  // A step that stops an insertion is at a free slot or at the key.
  lemma StopIsFreeOrKey(items: seq<Item>, index: nat, key: string, n: nat)
    requires |items| > 0 && 1 <= n && Stops(items, index, key, n)
    requires forall j :: 1 <= j < n ==> !Stops(items, index, key, j)
    ensures if items[ProbeAt(index, n, |items|)].Null? then FreeAt(items, index, 1, n) else KeyAt(items, index, key, n)
  {
    forall j | 1 <= j < n ensures items[ProbeAt(index, j, |items|)].Held? {
      assert !Stops(items, index, key, j);
    }
  }

  // No two steps are the first to meet a free slot or the key.
  lemma FirstIsOne(items: seq<Item>, index: nat, key: string, n: nat, m: nat)
    requires |items| > 0 && 1 <= n && Stops(items, index, key, n)
    requires forall j :: 1 <= j < n ==> !Stops(items, index, key, j)
    ensures KeyAt(items, index, key, m) ==> items[ProbeAt(index, n, |items|)].Held?
    ensures FreeAt(items, index, 1, m) && items[ProbeAt(index, n, |items|)].Null? ==> m == n
  {
    if KeyAt(items, index, key, m) || FreeAt(items, index, 1, m) {
      assert Stops(items, index, key, m);
      assert n <= m;
    }
  }

  // The stale probe finds a stored key exactly when it meets it before any free slot.
  lemma StaleMeets(items: seq<Item>, index: nat, key: string)
    requires |items| > 0 && Ends(items, index, key, 1)
    ensures items[ProbeAt(index, StopAt(items, index, key, 1), |items|)].Held? <==> MeetsKey(items, index, key)
  {
    var n := StopAt(items, index, key, 1);
    StopIsFreeOrKey(items, index, key, n);
    if MeetsKey(items, index, key) {
      var m :| KeyAt(items, index, key, m);
      FirstIsOne(items, index, key, n, m);
    }
  }

  // The stale probe of a key it does not meet ends at the first free slot.
  lemma StaleEnds(items: seq<Item>, index: nat, key: string, p: nat)
    requires |items| > 0 && Ends(items, index, key, 1)
    requires items[ProbeAt(index, StopAt(items, index, key, 1), |items|)].Null?
    ensures EndsFree(items, index, 1, p) <==> p == ProbeAt(index, StopAt(items, index, key, 1), |items|)
  {
    var n := StopAt(items, index, key, 1);
    StopIsFreeOrKey(items, index, key, n);
    if EndsFree(items, index, 1, p) {
      var m :| FreeAt(items, index, 1, m) && ProbeAt(index, m, |items|) == p;
      FirstIsOne(items, index, key, n, m);
    }
  }

  lemma StoredHomeIsHeld(h: HashFn, t: Table, key: string)
    requires Valid(h, t) && key in Contents(t.items)
    ensures t.items[Home(h, key, |t.items|)].Held?
  {
    var i := StoredIsReached(h, t, key);
    ProbeStart(Home(h, key, |t.items|), |t.items|);
  }

  lemma LandsForStored(h: HashFn, t: Table, key: string)
    requires Valid(h, t) && Storable(key) && IsTableSize(2 * |t.items|) && key in Contents(t.items)
    ensures GrowthLands(h, t, key) <==> TargetLands(h, t, key)
  {
    var index := Home(h, key, |t.items|);
    GrownHasRoom(h, t, index, key);
    StoredHomeIsHeld(h, t, key);
    StaleMeets(Grown(h, t).items, index, key);
  }

  // The stale probe of a new key stops at a free slot.
  lemma NewStopsFree(h: HashFn, t: Table, key: string)
    requires Valid(h, t) && Storable(key) && IsTableSize(2 * |t.items|) && key !in Contents(t.items)
    ensures var index, items := Home(h, key, |t.items|), Grown(h, t).items;
      Ends(items, index, key, 1) && items[ProbeAt(index, StopAt(items, index, key, 1), |items|)].Null?
  {
    var index, items := Home(h, key, |t.items|), Grown(h, t).items;
    GrownHasRoom(h, t, index, key);
    var n := StopAt(items, index, key, 1);
    if items[ProbeAt(index, n, |items|)].Held? {
      assert Live(items[ProbeAt(index, n, |items|)]);
    }
  }

  // The slot a new key is given.
  lemma TargetOfNew(h: HashFn, t: Table, key: string)
    requires Valid(h, t) && Storable(key) && IsTableSize(2 * |t.items|) && key !in Contents(t.items)
    ensures var index, items := Home(h, key, |t.items|), Grown(h, t).items;
      if Live(t.items[index]) then
        && Ends(items, index, key, 1) && items[ProbeAt(index, StopAt(items, index, key, 1), |items|)].Null?
        && GrownTarget(h, t, key) == ProbeAt(index, StopAt(items, index, key, 1), |items|)
      else GrownTarget(h, t, key) == index
  {
    NewStopsFree(h, t, key);
    var index, items := Home(h, key, |t.items|), Grown(h, t).items;
    NoTombstoneMet(items, index, StopAt(items, index, key, 1));
  }

  lemma NoTombstoneMet(items: seq<Item>, index: nat, n: nat)
    requires |items| > 0 && NoTombstones(items) && 1 <= n
    ensures FirstTombstone(items, index, 1, n) == -1
  {
  }

  lemma LandsForNew(h: HashFn, t: Table, key: string)
    requires Valid(h, t) && Storable(key) && IsTableSize(2 * |t.items|) && key !in Contents(t.items)
    ensures GrowthLands(h, t, key) <==> TargetLands(h, t, key)
  {
    var index, items := Home(h, key, |t.items|), Grown(h, t).items;
    var w := GrownTarget(h, t, key);
    TargetOfNew(h, t, key);
    OwnFree(items, Home(h, key, |items|), w);
    if Live(t.items[index]) {
      StaleEnds(items, index, key, w);
      if GrowthLands(h, t, key) {
        var p :| EndsFree(items, index, 1, p) && EndsFree(items, Home(h, key, |items|), 0, p);
        StaleEnds(items, index, key, p);
      }
    }
  }

  lemma LandsIffTargetLands(h: HashFn, t: Table, key: string)
    requires Valid(h, t) && Storable(key) && IsTableSize(2 * |t.items|)
    ensures GrowthLands(h, t, key) <==> TargetLands(h, t, key)
  {
    if key in Contents(t.items) {
      LandsForStored(h, t, key);
    } else {
      LandsForNew(h, t, key);
    }
  }

  lemma OverwrittenKeyIsLost(items: seq<Item>, w: nat, it: Item)
    requires w < |items| && UniqueKeys(items) && UniqueKeys(items[w := it]) && Live(items[w])
    requires it.Held? && it.key != items[w].key
    ensures items[w].key !in Contents(items[w := it])
  {
    var items' := items[w := it];
    assert forall q :: 0 <= q < |items| && q != w ==> items'[q] == items[q];
    assert !Stores(items', items[w].key);
  }

  // A write that did what a map insertion does went to a free slot on the key's path.
  lemma GoodWriteShows(h: HashFn, t: Table, w: nat, key: string, value: nat)
    requires Valid(h, t) && Storable(key) && w < |t.items| && NoTombstones(t.items)
    requires Valid(h, Write(t, w, key, value)) && key !in Contents(t.items)
    requires Contents(Write(t, w, key, value).items) == Contents(t.items)[key := value]
    ensures t.items[w].Null? && Reached(t.items, Home(h, key, |t.items|), w)
  {
    var items, items' := t.items, Write(t, w, key, value).items;
    if items[w].Held? {
      assert Live(items[w]);
      OverwrittenKeyIsLost(items, w, Held(key, value));
    }
    assert Live(items'[w]);
    var i :| 0 <= i < |items'| && ReachedBy(items', Home(h, key, |items'|), w, i);
    UnfilledPath(items, w, Held(key, value), Home(h, key, |items|), i);
  }

  // The path to a slot does not depend on what the slot holds.
  lemma UnfilledPath(items: seq<Item>, w: nat, it: Item, index: nat, i: nat)
    requires IsTableSize(|items|) && w < |items| && i < |items|
    requires ReachedBy(items[w := it], index, w, i)
    ensures ReachedBy(items, index, w, i)
  {
    forall j | 0 <= j < i ensures items[ProbeAt(index, j, |items|)].Held? {
      ProbesAreDistinct(index, j, i, |items|);
      assert items[w := it][ProbeAt(index, j, |items|)].Held?;
    }
  }

  lemma TargetDecides(h: HashFn, t: Table, key: string, value: nat)
    requires Valid(h, t) && Storable(key) && Overloaded(t) && IsTableSize(2 * |t.items|)
    ensures InsertIsMapInsert(h, t, key, value) <==> TargetLands(h, t, key)
  {
    var index := Home(h, key, |t.items|);
    GrownHasRoom(h, t, index, key);
    var t1, w := Grown(h, t), GrownTarget(h, t, key);
    assert Insert(h, t, key, value) == if w == -1 then (t1, 0) else (Write(t1, w, key, value), 1);
    if key !in Contents(t.items) {
      TargetOfNew(h, t, key);
      if TargetLands(h, t, key) {
        WriteKeepsValid(h, t1, w, key, value);
      } else if InsertIsMapInsert(h, t, key, value) {
        GoodWriteShows(h, t1, w, key, value);
      }
    }
  }

  /** Exactly when an insertion that grows the table does what a map insertion does: when the probe
      from the old home slot, walked in the grown table, comes to where the key's own probe comes. */
  lemma GrowingInsertExactly(h: HashFn, t: Table, key: string, value: nat)
    requires Valid(h, t) && Storable(key) && Overloaded(t) && IsTableSize(2 * |t.items|)
    ensures InsertIsMapInsert(h, t, key, value) <==> GrowthLands(h, t, key)
  {
    LandsIffTargetLands(h, t, key);
    TargetDecides(h, t, key, value);
  }

  /** What the header intends: grow first, then start the probe in the grown table. */
  lemma InsertAfterGrowth(h: HashFn, t: Table, key: string, value: nat)
    requires Valid(h, t) && Storable(key) && IsTableSize(2 * |t.items|)
    ensures var t1 := Grown(h, t);
      !Overloaded(t1) && Insertable(h, t1, key) && InsertIsMapInsert(h, t1, key, value)
  {
    GrownHasRoom(h, t, Home(h, key, 2 * |t.items|), key);
    InsertInPlaceIsMapInsert(h, Grown(h, t), key, value);
  }

  /** A growing insertion whose key has a free home in the grown table, away from the slot
      filled, reports success and loses the key: the next search for it fails. */
  lemma LostAfterGrowth(h: HashFn, t: Table, key: string, value: nat)
    requires Valid(h, t) && Storable(key) && Overloaded(t) && IsTableSize(2 * |t.items|)
    requires key !in Contents(t.items) && GrownTarget(h, t, key) != Home(h, key, 2 * |t.items|)
    requires Grown(h, t).items[Home(h, key, 2 * |t.items|)].Null?
    ensures var r := Insert(h, t, key, value);
      r.1 == 1 && Find(h, r.0, key) == -1
  {
    var index := Home(h, key, |t.items|);
    GrownHasRoom(h, t, index, key);
    var t1, w := Grown(h, t), GrownTarget(h, t, key);
    TargetOfNew(h, t, key);
    assert Insert(h, t, key, value) == (Write(t1, w, key, value), 1);
    ProbeStart(Home(h, key, |t1.items|), |t1.items|);
  }

  // A key whose home slot is free is stored there.
  lemma StoredAtHome(h: HashFn, t: Table, key: string, value: nat)
    requires Valid(h, t) && Storable(key) && t.items[Home(h, key, |t.items|)].Null?
    ensures CanPlace(h, t, key) && key !in Contents(t.items)
    ensures var t' := Write(t, Home(h, key, |t.items|), key, value);
      && InsertInPlace(h, t, key, value) == (t', 1) && Valid(h, t')
      && Contents(t'.items) == Contents(t.items)[key := value]
  {
    var index := Home(h, key, |t.items|);
    ProbeStart(index, |t.items|);
    assert HasNull(t.items);
    NullEndsLoop(t.items, index, key, 0);
    assert Passes(t.items, index, key, 0, 0);
    FreshKeyIsPlaced(h, t, key, value, 0, 0);
  }

  // Three keys by the slots they start from: 0, 1 and 1 in a table of two, 2, 3 and 1 in one of four.
  ghost predicate Colliding(h: HashFn, a: string, b: string, c: string) {
    && Storable(a) && Storable(b) && Storable(c)
    && h(a) % 4 == 2 && h(b) % 4 == 3 && h(c) % 4 == 1
  }

  function OneOf(h: HashFn, a: string, size: nat): Table
    requires size > 0
  {
    Write(EmptyTable(size), Home(h, a, size), a, 1)
  }

  function TwoOf(h: HashFn, a: string, b: string, size: nat): Table
    requires size > 0
  {
    Write(OneOf(h, a, size), Home(h, b, size), b, 2)
  }

  lemma FirstAtHome(h: HashFn, a: string, size: nat)
    requires Storable(a) && IsTableSize(size)
    ensures CanPlace(h, EmptyTable(size), a)
    ensures InsertInPlace(h, EmptyTable(size), a, 1) == (OneOf(h, a, size), 1)
    ensures Valid(h, OneOf(h, a, size)) && Contents(OneOf(h, a, size).items) == map[a := 1]
  {
    EmptyTableIsValid(h, size);
    StoredAtHome(h, EmptyTable(size), a, 1);
  }

  lemma SecondAtHome(h: HashFn, a: string, b: string, size: nat)
    requires Storable(a) && Storable(b) && IsTableSize(size) && Home(h, a, size) != Home(h, b, size)
    ensures Valid(h, OneOf(h, a, size)) && CanPlace(h, OneOf(h, a, size), b)
    ensures InsertInPlace(h, OneOf(h, a, size), b, 2) == (TwoOf(h, a, b, size), 1)
    ensures Valid(h, TwoOf(h, a, b, size)) && Contents(TwoOf(h, a, b, size).items) == map[a := 1, b := 2]
  {
    FirstAtHome(h, a, size);
    StoredAtHome(h, OneOf(h, a, size), b, 2);
    assert map[a := 1][b := 2] == map[a := 1, b := 2];
  }

  lemma GrownPair(h: HashFn, a: string, b: string, size: nat)
    requires Storable(a) && Storable(b) && size == 2 && Home(h, a, size) == 0 && Home(h, b, size) == 1
    requires IsTableSize(size) && IsTableSize(2 * size) && Home(h, a, 2 * size) != Home(h, b, 2 * size)
    ensures Valid(h, TwoOf(h, a, b, size))
    ensures Grown(h, TwoOf(h, a, b, size)).items == TwoOf(h, a, b, 2 * size).items
  {
    FirstAtHome(h, a, 2 * size);
    SecondAtHome(h, a, b, size);
    SecondAtHome(h, a, b, 2 * size);
    var items := TwoOf(h, a, b, size).items;
    CountFits(items);
    RehashNext(h, items, 0, 2 * size, EmptyTable(2 * size));
    RehashNext(h, items, 1, 2 * size, OneOf(h, a, 2 * size));
  }

  lemma RehashNext(h: HashFn, items: seq<Item>, n: nat, size: nat, t: Table)
    requires Rehashable(items, size) && n < |items| && Live(items[n]) && Rehash(h, items, n, size) == t
    ensures CanPlace(h, t, items[n].key)
    ensures Rehash(h, items, n + 1, size) == InsertInPlace(h, t, items[n].key, items[n].value).0
  {
    RehashStep(h, items, n, size, t);
  }

  // With slots 2 and 3 taken, the probe from slot 1 passes slot 2 and stops at slot 0.
  lemma StaleStart(items: seq<Item>, c: string, size: nat)
    requires |items| == size == 4 && items[2].Held? && !SameKey(items[2].key, c) && items[0].Null?
    ensures Ends(items, 1, c, 1) && ProbeAt(1, StopAt(items, 1, c, 1), size) == 0
  {
    assert ProbeAt(1, 1, size) == 2 && ProbeAt(1, 2, size) == 0;
    assert !Stops(items, 1, c, 1) && Stops(items, 1, c, 2);
  }

  lemma HomesOf(h: HashFn, key: string, size: nat, big: nat)
    requires size == 2 && big == 4
    ensures Home(h, key, size) == (h(key) % 4) % 2 && Home(h, key, big) == h(key) % 4
  {
  }

  // The table of two, filled.
  lemma PairIsOverloaded(h: HashFn, a: string, b: string, c: string, t: Table)
    requires Colliding(h, a, b, c) && |t.items| == 2 && t == TwoOf(h, a, b, |t.items|)
    ensures Valid(h, t) && Overloaded(t) && IsTableSize(2 * |t.items|) && Contents(t.items) == map[a := 1, b := 2]
    ensures Grown(h, t).items == TwoOf(h, a, b, 2 * |t.items|).items
    ensures Home(h, c, |t.items|) == 1 && t.items[1] == Held(b, 2)
  {
    assert Pow2(1) == 2 && Pow2(2) == 4;
    HomesOf(h, a, |t.items|, 2 * |t.items|);
    HomesOf(h, b, |t.items|, 2 * |t.items|);
    HomesOf(h, c, |t.items|, 2 * |t.items|);
    SecondAtHome(h, a, b, |t.items|);
    GrownPair(h, a, b, |t.items|);
  }

  lemma FourWithTwo(h: HashFn, a: string, b: string, c: string, items: seq<Item>, size: nat)
    requires Colliding(h, a, b, c) && size == 4 && items == TwoOf(h, a, b, size).items
    ensures |items| == size && items[2] == Held(a, 1) && items[3] == Held(b, 2) && items[0].Null? && items[1].Null?
    ensures Home(h, c, size) == 1
  {
    HomesOf(h, a, 2, size);
    HomesOf(h, b, 2, size);
    HomesOf(h, c, 2, size);
  }

  /** A loss: the third key goes to slot 0 of the grown table, where no search for it looks. */
  lemma ThirdIsLost(h: HashFn, a: string, b: string, c: string, t: Table)
    requires Colliding(h, a, b, c) && |t.items| == 2 && t == TwoOf(h, a, b, |t.items|)
    ensures Insertable(h, t, c) && Overloaded(t)
    ensures Insert(h, t, c, 3).1 == 1 && Find(h, Insert(h, t, c, 3).0, c) == -1
  {
    PairIsOverloaded(h, a, b, c, t);
    var items := Grown(h, t).items;
    FourWithTwo(h, a, b, c, items, |items|);
    assert c !in Contents(t.items);
    StaleStart(items, c, |items|);
    TargetOfNew(h, t, c);
    LostAfterGrowth(h, t, c, 3);
  }

  // Two insertions fill a new table of two.
  lemma PairIsInserted(h: HashFn, a: string, b: string, c: string, size: nat)
    requires Colliding(h, a, b, c) && size == 2
    ensures IsTableSize(size) && Insertable(h, EmptyTable(size), a)
    ensures Insert(h, EmptyTable(size), a, 1) == (OneOf(h, a, size), 1) && Insertable(h, OneOf(h, a, size), b)
    ensures Insert(h, OneOf(h, a, size), b, 2) == (TwoOf(h, a, b, size), 1)
  {
    assert Pow2(1) == size;
    HomesOf(h, a, size, 2 * size);
    HomesOf(h, b, size, 2 * size);
    EmptyTableIsValid(h, size);
    FirstAtHome(h, a, size);
    SecondAtHome(h, a, b, size);
  }

  /** A loss: of three keys inserted into a new table of two slots the third is reported as added
      and not found again. */
  lemma GrowthLosesThird(h: HashFn, a: string, b: string, c: string, size: nat)
    requires Colliding(h, a, b, c) && size == 2
    ensures IsTableSize(size) && Insertable(h, EmptyTable(size), a)
    ensures var t1 := Insert(h, EmptyTable(size), a, 1).0;
      Insertable(h, t1, b) && var t2 := Insert(h, t1, b, 2).0;
      Insertable(h, t2, c) && var r := Insert(h, t2, c, 3);
      r.1 == 1 && Find(h, r.0, c) == -1
  {
    PairIsInserted(h, a, b, c, size);
    ThirdIsLost(h, a, b, c, TwoOf(h, a, b, size));
  }

  /** With the hash of the program three letters are such keys. */
  lemma LettersCollide(a: string, b: string, c: string)
    requires a == "a" && b == "b" && c == "c"
    ensures Colliding(Jenkins, a, b, c)
  {
    HashOfA(a);
    HashOfB(b);
    HashOfC(c);
  }

  // ---------- the reserved key ----------

  // No binding of a that b has not.
  ghost predicate Within(a: map<string, nat>, b: map<string, nat>) {
    forall k :: k in a ==> k in b && b[k] == a[k]
  }

  lemma WithinIsFewer(a: map<string, nat>, b: map<string, nat>)
    requires Within(a, b)
    ensures |a| <= |b|
  {
    SubsetCardinality(a.Keys, b.Keys);
  }

  lemma BuriedContents(items: seq<Item>, p: nat, value: nat)
    requires UniqueKeys(items) && p < |items|
    ensures UniqueKeys(items[p := Held(TOMBSTONE, value)])
    ensures Within(Contents(items[p := Held(TOMBSTONE, value)]), Contents(items))
  {
    var items' := items[p := Held(TOMBSTONE, value)];
    assert forall q :: 0 <= q < |items| && q != p ==> items'[q] == items[q];
    var m, m' := Contents(items), Contents(items');
    forall k | k in m' ensures k in m && m[k] == m'[k] {
      assert Stores(items', k);
      var q :| 0 <= q < |items'| && Live(items'[q]) && items'[q].key == k;
      assert items[q] == items'[q];
    }
  }

  // The probe from index meets a free slot before any tombstone.
  ghost predicate FreeFirst(items: seq<Item>, index: nat)
    requires |items| > 0
  {
    exists n :: FreeAt(items, index, 0, n) && NoneRemoved(items, index, n)
  }

  ghost predicate NoneRemoved(items: seq<Item>, index: nat, n: nat)
    requires |items| > 0
  {
    forall j :: 0 <= j < n ==> !IsTombstone(items[ProbeAt(index, j, |items|)])
  }

  // The step an insertion of the tombstone word stops at decides it.
  lemma StopDecides(items: seq<Item>, index: nat, n: nat)
    requires |items| > 0 && Passes(items, index, TOMBSTONE, 0, n) && Stops(items, index, TOMBSTONE, n)
    ensures FreeFirst(items, index) <==> items[ProbeAt(index, n, |items|)].Null?
  {
    forall j | 0 <= j < n
      ensures items[ProbeAt(index, j, |items|)].Held? && !IsTombstone(items[ProbeAt(index, j, |items|)])
    {
      assert !Stops(items, index, TOMBSTONE, j);
    }
    if items[ProbeAt(index, n, |items|)].Null? {
      assert FreeAt(items, index, 0, n) && NoneRemoved(items, index, n);
    }
    if FreeFirst(items, index) {
      var m :| FreeAt(items, index, 0, m) && NoneRemoved(items, index, m);
      assert n <= m;
    }
  }

  /** Inserting the tombstone word never adds a binding; when it reports success the counter has run
      ahead of the bindings. In a table that does not grow it does so exactly when the word's probe meets
      a free slot before any tombstone. Only an insertion that grows the table can lose a binding. */
  lemma ReservedKeyIsNotStored(h: HashFn, t: Table, value: nat)
    requires Insertable(h, t, TOMBSTONE)
    ensures var r := Insert(h, t, TOMBSTONE, value);
      && UniqueKeys(r.0.items) && Within(Contents(r.0.items), Contents(t.items))
      && (!Overloaded(t) ==>
            Contents(r.0.items) == Contents(t.items)
            && (r.1 == 1 <==> FreeFirst(t.items, Home(h, TOMBSTONE, |t.items|))))
      && if r.1 == 1 then r.0.count == |Contents(t.items)| + 1 && !Valid(h, r.0)
         else r.1 == 0 && Valid(h, r.0) && Contents(r.0.items) == Contents(t.items)
  {
    var index, t1 := Home(h, TOMBSTONE, |t.items|), Working(h, t);
    InsertIsPlace(h, t, TOMBSTONE, value);
    var w := Target(t1.items, index, t.items[index], TOMBSTONE);
    if w >= 0 {
      BuriedContents(t1.items, w, value);
      WithinIsFewer(Contents(t1.items[w := Held(TOMBSTONE, value)]), Contents(t1.items));
    }
    if !Overloaded(t) {
      ReservedInPlace(h, t, value);
    }
  }

  lemma ReservedInPlace(h: HashFn, t: Table, value: nat)
    requires Valid(h, t) && CanPlace(h, t, TOMBSTONE)
    ensures var r := InsertInPlace(h, t, TOMBSTONE, value);
      && UniqueKeys(r.0.items) && Contents(r.0.items) == Contents(t.items)
      && (r.1 == 1 <==> FreeFirst(t.items, Home(h, TOMBSTONE, |t.items|)))
  {
    var n, j := InsertInPlaceStops(h, t, TOMBSTONE, value);
    var index := Home(h, TOMBSTONE, |t.items|);
    StopDecides(t.items, index, n);
    if t.items[ProbeAt(index, n, |t.items|)].Null? {
      assert j < n ==> !Stops(t.items, index, TOMBSTONE, j);
      HeldTombstoneContents(t.items, ProbeAt(index, j, |t.items|), value);
    }
  }

  lemma HeldTombstoneContents(items: seq<Item>, p: nat, value: nat)
    requires UniqueKeys(items) && p < |items| && !Live(items[p])
    ensures UniqueKeys(items[p := Held(TOMBSTONE, value)])
    ensures Contents(items[p := Held(TOMBSTONE, value)]) == Contents(items)
  {
    var items' := items[p := Held(TOMBSTONE, value)];
    assert forall q :: 0 <= q < |items| && q != p ==> items'[q] == items[q];
    var m := Contents(items);
    forall k | k in m ensures Stores(items', k) {
      var q :| 0 <= q < |items| && Live(items[q]) && items[q].key == k;
      assert items'[q] == items[q];
    }
    ContentsIs(items', m);
  }
}
