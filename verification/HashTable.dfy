/**
 The hash table as a value: its slots, its operations as functions of the slots,
 and the proof that they implement a finite map from keys to values.
 */
module HashTable {
  import opened Counting
  import opened TriangularProbing

  // The hash of a key before it is reduced to a slot; any function will do.
  type HashFn = string -> nat

  const KEY_MAXLEN: nat := 256
  const TOMBSTONE: string := "$"
  const EMPTY: nat := 0

  // A slot whose key pointer is NULL, or one holding a key. A removed slot holds TOMBSTONE.
  datatype Item = Null | Held(key: string, value: nat)

  // The array of slots and the counter the table keeps beside it.
  datatype Table = Table(items: seq<Item>, count: int)

  // ---------- keys ----------

  // The part of a key a bounded comparison looks at.
  function Trim(s: string): string {
    if |s| <= KEY_MAXLEN then s else s[..KEY_MAXLEN]
  }

  // strncmp(a, b, KEY_MAXLEN) == 0
  predicate SameKey(a: string, b: string) {
    Trim(a) == Trim(b)
  }

  predicate IsTombstone(it: Item) {
    it.Held? && SameKey(it.key, TOMBSTONE)
  }

  predicate Live(it: Item) {
    it.Held? && !SameKey(it.key, TOMBSTONE)
  }

  // What a caller may store: short enough, and not the reserved word.
  predicate Storable(key: string) {
    |key| <= KEY_MAXLEN && key != TOMBSTONE
  }

  // ---------- operations ----------

  function Home(h: HashFn, key: string, size: nat): (p: nat)
    requires size > 0
    ensures p < size
  {
    h(key) % size
  }

  function EmptyTable(size: nat): Table {
    Table(seq(size, _ => Null), 0)
  }

  // The bounded search loop from step i on; -1 when the key is not met.
  function FindFrom(items: seq<Item>, index: nat, key: string, i: nat): (r: int)
    requires i <= |items|
    ensures -1 <= r < |items|
    ensures r >= 0 ==> items[r].Held? && SameKey(items[r].key, key)
    decreases |items| - i
  {
    if i == |items| then -1
    else
      var p := ProbeAt(index, i, |items|);
      if items[p].Null? then -1
      else if SameKey(items[p].key, key) then p
      else FindFrom(items, index, key, i + 1)
  }

  function Find(h: HashFn, t: Table, key: string): (r: int)
    requires |t.items| > 0
    ensures -1 <= r < |t.items|
    ensures r >= 0 ==> t.items[r].Held? && SameKey(t.items[r].key, key)
  {
    FindFrom(t.items, Home(h, key, |t.items|), key, 0)
  }

  function Get(h: HashFn, t: Table, key: string): nat
    requires |t.items| > 0
  {
    var p := Find(h, t, key);
    if p == -1 then EMPTY else t.items[p].value
  }

  // The insertion loop has no bound of its own; it ends at the first step that meets
  // a free slot or the key.
  predicate Stops(items: seq<Item>, index: nat, key: string, i: nat)
    requires |items| > 0
  {
    var it := items[ProbeAt(index, i, |items|)];
    it.Null? || SameKey(it.key, key)
  }

  ghost predicate Ends(items: seq<Item>, index: nat, key: string, i: nat)
    requires |items| > 0
  {
    exists j :: i <= j < 2 * |items| && Stops(items, index, key, j)
  }

  function StopAt(items: seq<Item>, index: nat, key: string, i: nat): (n: nat)
    requires |items| > 0 && Ends(items, index, key, i)
    ensures i <= n < 2 * |items| && Stops(items, index, key, n)
    ensures forall j :: i <= j < n ==> !Stops(items, index, key, j)
    decreases 2 * |items| - i
  {
    if Stops(items, index, key, i) then i else StopAt(items, index, key, i + 1)
  }

  // The first tombstone met on steps i..n of a probe, or -1.
  function FirstTombstone(items: seq<Item>, index: nat, i: nat, n: nat): (r: int)
    requires |items| > 0 && i <= n
    ensures -1 <= r < |items|
    ensures r >= 0 ==> IsTombstone(items[r]) && exists j :: i <= j < n && ProbeAt(index, j, |items|) == r
    decreases n - i
  {
    if i == n then -1
    else
      var p := ProbeAt(index, i, |items|);
      if IsTombstone(items[p]) then p else FirstTombstone(items, index, i + 1, n)
  }

  predicate Overloaded(t: Table) {
    4 * t.count >= 3 * |t.items|
  }

  predicate Underloaded(t: Table) {
    |t.items| > 2 && 4 * t.count < |t.items|
  }

  function Write(t: Table, p: nat, key: string, value: nat): Table
    requires p < |t.items|
  {
    Table(t.items[p := Held(key, value)], t.count + 1)
  }

  // The slot an insertion fills, having started at slot index and read cur there;
  // -1 when it meets the key instead.
  function Target(items: seq<Item>, index: nat, cur: Item, key: string): (w: int)
    requires index < |items|
    requires cur.Held? && !SameKey(cur.key, key) ==> Ends(items, index, key, 1)
    ensures -1 <= w < |items|
  {
    if cur.Null? then index
    else if SameKey(cur.key, key) then -1
    else
      var n := StopAt(items, index, key, 1);
      var p := ProbeAt(index, n, |items|);
      var tomb := if IsTombstone(cur) then index else FirstTombstone(items, index, 1, n);
      if items[p].Held? then -1
      else if tomb >= 0 then tomb
      else p
  }

  function Place(t: Table, index: nat, cur: Item, key: string, value: nat): (Table, int)
    requires index < |t.items|
    requires cur.Held? && !SameKey(cur.key, key) ==> Ends(t.items, index, key, 1)
  {
    var w := Target(t.items, index, cur, key);
    if w == -1 then (t, 0) else (Write(t, w, key, value), 1)
  }

  // An insertion whose loop ends without growing the table first.
  ghost predicate CanPlace(h: HashFn, t: Table, key: string)
    requires |t.items| > 0
  {
    Ends(t.items, Home(h, key, |t.items|), key, 0)
  }

  function InsertInPlace(h: HashFn, t: Table, key: string, value: nat): (Table, int)
    requires IsTableSize(|t.items|) && CanPlace(h, t, key)
  {
    var index := Home(h, key, |t.items|);
    assert ProbeAt(index, 0, |t.items|) == index by { ProbeStart(index, |t.items|); }
    Place(t, index, t.items[index], key, value)
  }

  // ---------- the map a table stands for ----------

  ghost predicate UniqueKeys(items: seq<Item>) {
    forall p, q :: 0 <= p < q < |items| && Live(items[p]) && Live(items[q]) ==> items[p].key != items[q].key
  }

  ghost predicate ShortKeys(items: seq<Item>) {
    forall p :: 0 <= p < |items| && Live(items[p]) ==> |items[p].key| <= KEY_MAXLEN
  }

  ghost predicate Stores(items: seq<Item>, key: string) {
    exists p :: 0 <= p < |items| && Live(items[p]) && items[p].key == key
  }

  // The bindings of the live slots, and no other.
  ghost predicate IsContents(items: seq<Item>, m: map<string, nat>) {
    && (forall p :: 0 <= p < |items| && Live(items[p]) ==> items[p].key in m && m[items[p].key] == items[p].value)
    && (forall k :: k in m ==> Stores(items, k))
  }

  // The bindings of the first n slots.
  lemma {:induction false} GatherContents(items: seq<Item>, n: nat) returns (m: map<string, nat>)
    requires UniqueKeys(items) && n <= |items|
    ensures forall p :: 0 <= p < n && Live(items[p]) ==> items[p].key in m && m[items[p].key] == items[p].value
    ensures forall k :: k in m ==> Stores(items, k)
    decreases n
  {
    m := map[];
    if n > 0 {
      m := GatherContents(items, n - 1);
      var it := items[n - 1];
      if Live(it) {
        assert Stores(items, it.key);
        m := m[it.key := it.value];
      }
    }
  }

  lemma ContentsExist(items: seq<Item>)
    requires UniqueKeys(items)
    ensures exists m :: IsContents(items, m)
  {
    var m := GatherContents(items, |items|);
    assert IsContents(items, m);
  }

  ghost function Contents(items: seq<Item>): (m: map<string, nat>)
    requires UniqueKeys(items)
    ensures IsContents(items, m)
  {
    ContentsExist(items);
    var m :| IsContents(items, m);
    m
  }

  // Slot p is reached from index along a probe that meets no free slot on the way.
  ghost predicate Reached(items: seq<Item>, index: nat, p: nat)
    requires |items| > 0
  {
    exists i :: 0 <= i < |items| && ReachedBy(items, index, p, i)
  }

  ghost predicate ReachedBy(items: seq<Item>, index: nat, p: nat, i: nat)
    requires |items| > 0
  {
    && ProbeAt(index, i, |items|) == p
    && forall j :: 0 <= j < i ==> items[ProbeAt(index, j, |items|)].Held?
  }

  ghost predicate Chained(h: HashFn, items: seq<Item>)
    requires |items| > 0
  {
    forall p :: 0 <= p < |items| && Live(items[p]) ==> Reached(items, Home(h, items[p].key, |items|), p)
  }

  ghost predicate Valid(h: HashFn, t: Table) {
    && IsTableSize(|t.items|)
    && UniqueKeys(t.items) && ShortKeys(t.items) && Chained(h, t.items)
    && t.count == |Contents(t.items)|
  }

  ghost predicate NoTombstones(items: seq<Item>) {
    forall p :: 0 <= p < |items| ==> !IsTombstone(items[p])
  }

  ghost predicate HasNull(items: seq<Item>) {
    exists p :: 0 <= p < |items| && items[p].Null?
  }

  // ---------- search ----------

  // Steps i..n of the probe meet neither a free slot nor the key.
  ghost predicate Passes(items: seq<Item>, index: nat, key: string, i: nat, n: nat)
    requires |items| > 0
  {
    forall j :: i <= j < n ==> !Stops(items, index, key, j)
  }

  // The probe gives up at step n: a free slot, or the bound.
  ghost predicate GivesUp(items: seq<Item>, index: nat, n: nat) {
    n == |items| || (n < |items| && items[ProbeAt(index, n, |items|)].Null?)
  }

  lemma {:induction false} MissedSearch(items: seq<Item>, index: nat, key: string, i: nat) returns (n: nat)
    requires i <= |items| && |items| > 0 && FindFrom(items, index, key, i) == -1
    ensures i <= n <= |items| && GivesUp(items, index, n) && Passes(items, index, key, i, n)
    decreases |items| - i
  {
    if i == |items| || items[ProbeAt(index, i, |items|)].Null? {
      n := i;
    } else {
      n := MissedSearch(items, index, key, i + 1);
    }
  }

  // A stored key ends its own probe before any free slot does.
  lemma StoredIsReached(h: HashFn, t: Table, key: string) returns (i: nat)
    requires Valid(h, t) && key in Contents(t.items)
    ensures var index, size := Home(h, key, |t.items|), |t.items|;
      && i < size && Stops(t.items, index, key, i)
      && forall j :: 0 <= j <= i ==> t.items[ProbeAt(index, j, size)].Held?
  {
    assert Stores(t.items, key);
    var p :| 0 <= p < |t.items| && Live(t.items[p]) && t.items[p].key == key;
    i :| 0 <= i < |t.items| && ReachedBy(t.items, Home(h, key, |t.items|), p, i);
  }

  // A free slot reached before a key shows that the key is nowhere in the table.
  lemma AbsentIfGivenUp(h: HashFn, t: Table, key: string, n: nat)
    requires Valid(h, t)
    requires GivesUp(t.items, Home(h, key, |t.items|), n)
    requires Passes(t.items, Home(h, key, |t.items|), key, 0, n)
    ensures key !in Contents(t.items)
  {
    if key in Contents(t.items) {
      var i := StoredIsReached(h, t, key);
    }
  }

  /** A search meets the slot of a stored key, and reports -1 exactly for the others. */
  lemma FindIsLookup(h: HashFn, t: Table, key: string)
    requires Valid(h, t) && Storable(key)
    ensures var r := Find(h, t, key);
      if key in Contents(t.items) then r >= 0 && t.items[r] == Held(key, Contents(t.items)[key])
      else r == -1
  {
    var r := Find(h, t, key);
    if r == -1 {
      var n := MissedSearch(t.items, Home(h, key, |t.items|), key, 0);
      AbsentIfGivenUp(h, t, key, n);
    } else {
      assert Live(t.items[r]);
    }
  }

  // ---------- insertion ----------

  // Contents is the only map with the bindings of the live slots and no other.
  lemma ContentsIs(items: seq<Item>, m: map<string, nat>)
    requires UniqueKeys(items)
    requires IsContents(items, m)
    ensures Contents(items) == m
  {
    var c := Contents(items);
    forall k | k in c ensures k in m && c[k] == m[k] {
      var p :| 0 <= p < |items| && Live(items[p]) && items[p].key == k;
    }
    forall k | k in m ensures k in c {
      var p :| 0 <= p < |items| && Live(items[p]) && items[p].key == k;
    }
  }

  lemma WriteUnique(items: seq<Item>, w: nat, key: string, value: nat)
    requires UniqueKeys(items) && w < |items| && key !in Contents(items)
    ensures UniqueKeys(items[w := Held(key, value)])
  {
  }

  lemma WriteContents(items: seq<Item>, w: nat, key: string, value: nat)
    requires UniqueKeys(items) && w < |items| && !Live(items[w])
    requires key != TOMBSTONE && key !in Contents(items)
    ensures UniqueKeys(items[w := Held(key, value)])
    ensures Contents(items[w := Held(key, value)]) == Contents(items)[key := value]
  {
    WriteUnique(items, w, key, value);
    var items' := items[w := Held(key, value)];
    var m := Contents(items);
    var m' := m[key := value];
    forall k | k in m' ensures Stores(items', k) {
      if k == key {
        assert Live(items'[w]) && items'[w].key == k;
      } else {
        var p :| 0 <= p < |items| && Live(items[p]) && items[p].key == k;
        assert items'[p] == items[p];
      }
    }
    ContentsIs(items', m');
  }

  // Holding any key in a slot, even TOMBSTONE, breaks no probe path.
  lemma HeldKeepsPath(items: seq<Item>, w: nat, it: Item, index: nat, p: nat)
    requires w < |items| && it.Held? && Reached(items, index, p)
    ensures Reached(items[w := it], index, p)
  {
    var i :| 0 <= i < |items| && ReachedBy(items, index, p, i);
    assert ReachedBy(items[w := it], index, p, i);
  }

  lemma HeldKeepsChains(h: HashFn, items: seq<Item>, w: nat, it: Item)
    requires |items| > 0 && w < |items| && it.Held? && Chained(h, items)
    requires Live(it) ==> Reached(items, Home(h, it.key, |items|), w)
    ensures Chained(h, items[w := it])
  {
    var items' := items[w := it];
    forall p | 0 <= p < |items'| && Live(items'[p])
      ensures Reached(items', Home(h, items'[p].key, |items'|), p)
    {
      HeldKeepsPath(items, w, it, Home(h, items'[p].key, |items|), p);
    }
  }

  lemma WriteKeepsValid(h: HashFn, t: Table, w: nat, key: string, value: nat)
    requires Valid(h, t) && w < |t.items| && !Live(t.items[w])
    requires Storable(key) && key !in Contents(t.items)
    requires Reached(t.items, Home(h, key, |t.items|), w)
    ensures Valid(h, Write(t, w, key, value))
    ensures Contents(Write(t, w, key, value).items) == Contents(t.items)[key := value]
  {
    WriteContents(t.items, w, key, value);
    HeldKeepsChains(h, t.items, w, Held(key, value));
  }

  // The stop of an insertion at a free slot comes within one lap, so the loop makes
  // fewer than size steps, and the whole table has been ruled out.
  lemma NullStopIsEarly(items: seq<Item>, index: nat, key: string, n: nat)
    requires IsTableSize(|items|) && Passes(items, index, key, 0, n)
    requires items[ProbeAt(index, n, |items|)].Null?
    ensures n < |items|
  {
    ProbesCoverTable(index, ProbeAt(index, n, |items|), |items|);
    var j :| 0 <= j < |items| && ProbeAt(index, j, |items|) == ProbeAt(index, n, |items|);
    assert Stops(items, index, key, j);
  }

  // A step of the path the insertion walked, or the free slot that ended it.
  lemma WalkedIsReached(items: seq<Item>, index: nat, key: string, n: nat, j: nat)
    requires IsTableSize(|items|) && Passes(items, index, key, 0, n) && j <= n < |items|
    ensures Reached(items, index, ProbeAt(index, j, |items|))
  {
    assert ReachedBy(items, index, ProbeAt(index, j, |items|), j) by {
      forall l | 0 <= l < j ensures items[ProbeAt(index, l, |items|)].Held? {
        assert !Stops(items, index, key, l);
      }
    }
  }

  // Where an insertion that walks past steps 0..n and meets a free slot there writes.
  lemma FreshKeyIsPlaced(h: HashFn, t: Table, key: string, value: nat, n: nat, j: nat)
    requires Valid(h, t) && Storable(key)
    requires Passes(t.items, Home(h, key, |t.items|), key, 0, n) && j <= n
    requires t.items[ProbeAt(Home(h, key, |t.items|), n, |t.items|)].Null?
    requires !Live(t.items[ProbeAt(Home(h, key, |t.items|), j, |t.items|)])
    ensures key !in Contents(t.items)
    ensures var t' := Write(t, ProbeAt(Home(h, key, |t.items|), j, |t.items|), key, value);
      Valid(h, t') && Contents(t'.items) == Contents(t.items)[key := value]
  {
    var index := Home(h, key, |t.items|);
    NullStopIsEarly(t.items, index, key, n);
    AbsentIfGivenUp(h, t, key, n);
    WalkedIsReached(t.items, index, key, n, j);
    WriteKeepsValid(h, t, ProbeAt(index, j, |t.items|), key, value);
  }

  // The insertion as a search: where it stops, and the slot it then fills.
  lemma InsertInPlaceStops(h: HashFn, t: Table, key: string, value: nat) returns (n: nat, j: nat)
    requires IsTableSize(|t.items|) && CanPlace(h, t, key)
    ensures var index := Home(h, key, |t.items|);
      && Passes(t.items, index, key, 0, n) && Stops(t.items, index, key, n) && j <= n
      && InsertInPlace(h, t, key, value) ==
         (if t.items[ProbeAt(index, n, |t.items|)].Held? then (t, 0)
          else (Write(t, ProbeAt(index, j, |t.items|), key, value), 1))
      && (j == n || IsTombstone(t.items[ProbeAt(index, j, |t.items|)]))
  {
    var index := Home(h, key, |t.items|);
    ProbeStart(index, |t.items|);
    var cur := t.items[index];
    if cur.Null? || SameKey(cur.key, key) {
      n, j := 0, 0;
    } else {
      assert !Stops(t.items, index, key, 0);
      n := StopAt(t.items, index, key, 1);
      var tomb := FirstTombstone(t.items, index, 1, n);
      if IsTombstone(cur) {
        j := 0;
      } else if tomb >= 0 {
        j :| 1 <= j < n && ProbeAt(index, j, |t.items|) == tomb;
      } else {
        j := n;
      }
    }
  }

  /** An insertion that does not grow the table adds exactly the new binding, or finds the key. */
  lemma InsertInPlaceIsMapInsert(h: HashFn, t: Table, key: string, value: nat)
    requires Valid(h, t) && Storable(key) && CanPlace(h, t, key)
    ensures var r := InsertInPlace(h, t, key, value);
      && Valid(h, r.0)
      && (key in Contents(t.items) ==> r == (t, 0))
      && (key !in Contents(t.items) ==> r.1 == 1 && Contents(r.0.items) == Contents(t.items)[key := value])
  {
    var n, j := InsertInPlaceStops(h, t, key, value);
    var it := t.items[ProbeAt(Home(h, key, |t.items|), n, |t.items|)];
    if it.Held? {
      assert Live(it);
    } else {
      FreshKeyIsPlaced(h, t, key, value, n, j);
    }
  }

  lemma InsertInPlaceAddsNoTombstone(h: HashFn, t: Table, key: string, value: nat)
    requires IsTableSize(|t.items|) && CanPlace(h, t, key) && Storable(key)
    ensures var r := InsertInPlace(h, t, key, value);
      |r.0.items| == |t.items| && (NoTombstones(t.items) ==> NoTombstones(r.0.items))
  {
    var n, j := InsertInPlaceStops(h, t, key, value);
  }

  // ---------- room ----------

  lemma FullTableContents(items: seq<Item>)
    requires UniqueKeys(items) && forall p :: 0 <= p < |items| ==> Live(items[p])
    ensures |Contents(items)| == |items|
  {
    var keys := seq(|items|, p requires 0 <= p < |items| => items[p].key);
    DistinctCardinality(keys);
    var m := Contents(items);
    assert m.Keys == (set k | k in keys) by {
      forall k | k in m ensures k in keys {
        var p :| 0 <= p < |items| && Live(items[p]) && items[p].key == k;
        assert keys[p] == k;
      }
    }
    assert |m| == |m.Keys|;
  }

  lemma RoomIsNull(items: seq<Item>)
    requires UniqueKeys(items) && NoTombstones(items) && |Contents(items)| < |items|
    ensures HasNull(items)
  {
    if !HasNull(items) {
      assert forall p :: 0 <= p < |items| ==> Live(items[p]);
      FullTableContents(items);
    }
  }

  /** Whatever slot is free, the unbounded insertion loop meets it, even when it skips a whole lap. */
  lemma NullEndsLoop(items: seq<Item>, index: nat, key: string, i: nat)
    requires IsTableSize(|items|) && HasNull(items) && i <= |items|
    ensures Ends(items, index, key, i)
  {
    var p :| 0 <= p < |items| && items[p].Null?;
    SecondLapCoversTable(index, p, |items|);
    var j :| |items| <= j < 2 * |items| && ProbeAt(index, j, |items|) == p;
    assert Stops(items, index, key, j);
  }

  /** Exactly: the loop of an insertion ends when the key is stored or some slot is free. */
  lemma LoopEndsIff(h: HashFn, t: Table, key: string)
    requires Valid(h, t) && Storable(key)
    ensures CanPlace(h, t, key) <==> key in Contents(t.items) || HasNull(t.items)
  {
    var index := Home(h, key, |t.items|);
    if HasNull(t.items) {
      NullEndsLoop(t.items, index, key, 0);
    } else if key in Contents(t.items) {
      StoredEndsLoop(h, t, key);
    } else if CanPlace(h, t, key) {
      var j :| 0 <= j < 2 * |t.items| && Stops(t.items, index, key, j);
      var p := ProbeAt(index, j, |t.items|);
      if t.items[p].Held? {
        assert Live(t.items[p]);
      }
    }
  }

  lemma StoredEndsLoop(h: HashFn, t: Table, key: string)
    requires Valid(h, t) && key in Contents(t.items)
    ensures CanPlace(h, t, key)
  {
    var p :| 0 <= p < |t.items| && Live(t.items[p]) && t.items[p].key == key;
    var i :| 0 <= i < |t.items| && ReachedBy(t.items, Home(h, key, |t.items|), p, i);
    assert Stops(t.items, Home(h, key, |t.items|), key, i);
  }

  // ---------- resizing ----------

  lemma PrefixKeys(items: seq<Item>, n: nat)
    requires UniqueKeys(items) && n <= |items|
    ensures UniqueKeys(items[..n])
  {
  }

  lemma ExtendContents(items: seq<Item>, it: Item)
    requires UniqueKeys(items + [it])
    ensures UniqueKeys(items)
    ensures Live(it) ==> it.key !in Contents(items)
    ensures Contents(items + [it]) == (if Live(it) then Contents(items)[it.key := it.value] else Contents(items))
  {
    var items' := items + [it];
    assert UniqueKeys(items) by {
      assert items == items'[..|items|];
      PrefixKeys(items', |items|);
    }
    assert items'[|items|] == it;
    assert forall p :: 0 <= p < |items| ==> items'[p] == items[p];
    var m := Contents(items);
    forall k | k in m ensures Stores(items', k) {
      var p :| 0 <= p < |items| && Live(items[p]) && items[p].key == k;
      assert Live(items'[p]);
    }
    if Live(it) {
      assert it.key !in m;
      ContentsIs(items', m[it.key := it.value]);
    } else {
      ContentsIs(items', m);
    }
  }

  lemma PrefixContents(items: seq<Item>, n: nat)
    requires UniqueKeys(items) && n < |items|
    ensures UniqueKeys(items[..n]) && UniqueKeys(items[..n + 1])
    ensures Live(items[n]) ==> items[n].key !in Contents(items[..n])
    ensures Contents(items[..n + 1]) ==
      (if Live(items[n]) then Contents(items[..n])[items[n].key := items[n].value] else Contents(items[..n]))
  {
    PrefixKeys(items, n + 1);
    assert items[..n + 1] == items[..n] + [items[n]];
    ExtendContents(items[..n], items[n]);
  }

  lemma CountGrows(items: seq<Item>, n: nat)
    requires UniqueKeys(items) && n < |items|
    ensures UniqueKeys(items[..n]) && UniqueKeys(items[..n + 1])
    ensures |Contents(items[..n + 1])| == |Contents(items[..n])| + (if Live(items[n]) then 1 else 0)
  {
    PrefixContents(items, n);
  }

  lemma PrefixCount(items: seq<Item>, n: nat)
    requires UniqueKeys(items) && n <= |items|
    ensures UniqueKeys(items[..n])
    ensures |Contents(items[..n])| <= |Contents(items)|
  {
    PrefixKeys(items, n);
    var m, m' := Contents(items[..n]), Contents(items);
    forall k | k in m ensures k in m' {
      var p :| 0 <= p < n && Live(items[..n][p]) && items[..n][p].key == k;
      assert items[p] == items[..n][p];
    }
    SubsetCardinality(m.Keys, m'.Keys);
  }

  lemma {:induction false} CountFits(items: seq<Item>)
    requires UniqueKeys(items)
    ensures |Contents(items)| <= |items|
  {
    if items == [] {
      ContentsIs(items, map[]);
    } else {
      var n := |items| - 1;
      PrefixKeys(items, n);
      CountFits(items[..n]);
      CountGrows(items, n);
      assert items[..n + 1] == items;
    }
  }

  lemma EmptyTableIsValid(h: HashFn, size: nat)
    requires IsTableSize(size)
    ensures Valid(h, EmptyTable(size)) && Contents(EmptyTable(size).items) == map[]
    ensures NoTombstones(EmptyTable(size).items)
  {
    ContentsIs(EmptyTable(size).items, map[]);
  }

  // No insertion made while rehashing to that size meets the load threshold.
  ghost predicate Spacious(items: seq<Item>, size: nat)
    requires UniqueKeys(items)
  {
    |Contents(items)| <= size && 4 * (|Contents(items)| - 1) < 3 * size
  }

  ghost predicate Rehashable(items: seq<Item>, size: nat) {
    IsTableSize(size) && UniqueKeys(items) && ShortKeys(items) && |Contents(items)| <= size
  }

  // What rehashing the first n old slots has achieved.
  ghost predicate Rehashed(h: HashFn, items: seq<Item>, n: nat, size: nat, r: Table)
    requires n <= |items|
  {
    && |r.items| == size && NoTombstones(r.items) && Valid(h, r)
    && UniqueKeys(items[..n]) && Contents(r.items) == Contents(items[..n])
  }

  // The new table after the first n old slots have been visited.
  function Rehash(h: HashFn, items: seq<Item>, n: nat, size: nat): (r: Table)
    requires Rehashable(items, size) && n <= |items|
    ensures Rehashed(h, items, n, size, r)
    decreases n
  {
    if n == 0 then
      RehashStart(h, items, size);
      EmptyTable(size)
    else
      var t := Rehash(h, items, n - 1, size);
      RehashCopy(h, items, n - 1, size, t);
      Copy(h, t, items[n - 1])
  }

  // The table after old slot it has been visited.
  function Copy(h: HashFn, t: Table, it: Item): Table
    requires IsTableSize(|t.items|) && (Live(it) ==> CanPlace(h, t, it.key))
  {
    if Live(it) then InsertInPlace(h, t, it.key, it.value).0 else t
  }

  lemma RehashCopy(h: HashFn, items: seq<Item>, n: nat, size: nat, t: Table)
    requires Rehashable(items, size) && n < |items| && Rehashed(h, items, n, size, t)
    ensures IsTableSize(|t.items|) && (Live(items[n]) ==> CanPlace(h, t, items[n].key))
    ensures Rehashed(h, items, n + 1, size, Copy(h, t, items[n]))
  {
    RehashStep(h, items, n, size, t);
  }

  lemma RehashStart(h: HashFn, items: seq<Item>, size: nat)
    requires Rehashable(items, size)
    ensures Rehashed(h, items, 0, size, EmptyTable(size))
  {
    PrefixKeys(items, 0);
    EmptyTableIsValid(h, size);
    ContentsIs(items[..0], map[]);
  }

  // The insertion made for old slot n is of a new key, into a table with a free slot.
  lemma RehashStep(h: HashFn, items: seq<Item>, n: nat, size: nat, t: Table)
    requires Rehashable(items, size) && n < |items| && Rehashed(h, items, n, size, t)
    ensures !Live(items[n]) ==> Rehashed(h, items, n + 1, size, t)
    ensures Live(items[n]) ==>
      && t.count < |Contents(items)|
      && CanPlace(h, t, items[n].key)
      && InsertInPlace(h, t, items[n].key, items[n].value).1 == 1
      && Rehashed(h, items, n + 1, size, InsertInPlace(h, t, items[n].key, items[n].value).0)
  {
    var it := items[n];
    PrefixContents(items, n);
    if Live(it) {
      CountGrows(items, n);
      PrefixCount(items, n + 1);
      RoomIsNull(t.items);
      NullEndsLoop(t.items, Home(h, it.key, size), it.key, 0);
      InsertInPlaceIsMapInsert(h, t, it.key, it.value);
      InsertInPlaceAddsNoTombstone(h, t, it.key, it.value);
    }
  }

  function Resize(h: HashFn, t: Table, size: nat): (r: Table)
    requires Rehashable(t.items, size)
    ensures |r.items| == size && NoTombstones(r.items) && Valid(h, r)
    ensures Contents(r.items) == Contents(t.items)
  {
    assert t.items[..|t.items|] == t.items;
    Rehash(h, t.items, |t.items|, size)
  }

  // ---------- the operations on any table ----------

  // What an insertion needs to run to its end: room to double, or a loop that ends.
  ghost predicate Insertable(h: HashFn, t: Table, key: string) {
    && Valid(h, t)
    && (|key| <= KEY_MAXLEN ==>
          if Overloaded(t) then IsTableSize(2 * |t.items|) else CanPlace(h, t, key))
  }

  // The table an overloaded insertion works in.
  function Grown(h: HashFn, t: Table): (r: Table)
    requires Valid(h, t) && IsTableSize(2 * |t.items|)
    ensures |r.items| == 2 * |t.items| && NoTombstones(r.items) && Valid(h, r)
    ensures Contents(r.items) == Contents(t.items) && r.count <= |t.items|
  {
    CountFits(t.items);
    Resize(h, t, 2 * |t.items|)
  }

  lemma GrownHasRoom(h: HashFn, t: Table, index: nat, key: string)
    requires Valid(h, t) && IsTableSize(2 * |t.items|)
    ensures Ends(Grown(h, t).items, index, key, 0) && Ends(Grown(h, t).items, index, key, 1)
  {
    var r := Grown(h, t);
    RoomIsNull(r.items);
    NullEndsLoop(r.items, index, key, 0);
    NullEndsLoop(r.items, index, key, 1);
  }

  // The start slot and the first key are read before the table is grown, and used after.
  function Insert(h: HashFn, t: Table, key: string, value: nat): (Table, int)
    requires Insertable(h, t, key)
  {
    if |key| > KEY_MAXLEN then (t, -1)
    else if Overloaded(t) then
      var index := Home(h, key, |t.items|);
      GrownHasRoom(h, t, index, key);
      Place(Grown(h, t), index, t.items[index], key, value)
    else InsertInPlace(h, t, key, value)
  }

  lemma RehashUnfolds(h: HashFn, items: seq<Item>, n: nat, size: nat)
    requires Rehashable(items, size) && n < |items|
    ensures var t := Rehash(h, items, n, size);
      && Valid(h, t) && |t.items| == size
      && (Live(items[n]) ==> CanPlace(h, t, items[n].key) && t.count < |Contents(items)|)
      && Rehash(h, items, n + 1, size) == Copy(h, t, items[n])
  {
    RehashStep(h, items, n, size, Rehash(h, items, n, size));
  }

  /** Into a table with room to spare rehashing copies by plain insertions: none of them meets the
      load threshold, so growing and shrinking never nest. */
  lemma RehashInserts(h: HashFn, items: seq<Item>, n: nat, size: nat)
    requires Rehashable(items, size) && n < |items| && 4 * (|Contents(items)| - 1) < 3 * size
    ensures var t, it := Rehash(h, items, n, size), items[n];
      if Live(it) then
        Insertable(h, t, it.key) && !Overloaded(t) && |it.key| <= KEY_MAXLEN
        && Rehash(h, items, n + 1, size) == Insert(h, t, it.key, it.value).0
      else Rehash(h, items, n + 1, size) == t
  {
    RehashUnfolds(h, items, n, size);
  }

  // The table an insertion of a short key works in, and what it does there.
  function Working(h: HashFn, t: Table): (r: Table)
    requires Valid(h, t) && (Overloaded(t) ==> IsTableSize(2 * |t.items|))
    ensures Valid(h, r)
  {
    if Overloaded(t) then Grown(h, t) else t
  }

  lemma InsertIsPlace(h: HashFn, t: Table, key: string, value: nat)
    requires Insertable(h, t, key) && |key| <= KEY_MAXLEN
    ensures var index, items := Home(h, key, |t.items|), Working(h, t).items;
      t.items[index].Held? && !SameKey(t.items[index].key, key) ==> Ends(items, index, key, 1)
    ensures var index := Home(h, key, |t.items|);
      Insert(h, t, key, value) == Place(Working(h, t), index, t.items[index], key, value)
  {
    var index := Home(h, key, |t.items|);
    if Overloaded(t) {
      GrownHasRoom(h, t, index, key);
    } else {
      ProbeStart(index, |t.items|);
    }
  }

  function Increase(h: HashFn, t: Table, key: string, incr: nat): Table
    requires Valid(h, t) && (Find(h, t, key) == -1 ==> Insertable(h, t, key))
  {
    var p := Find(h, t, key);
    if p == -1 then Insert(h, t, key, incr).0
    else t.(items := t.items[p := Held(t.items[p].key, AddWord(t.items[p].value, incr))])
  }

  // One less, in a word.
  function Decrement(count: int): int {
    if count == 0 then WORD - 1 else count - 1
  }

  // A slot after its key has been removed.
  function Bury(t: Table, p: nat): Table
    requires p < |t.items|
  {
    Table(t.items[p := Held(TOMBSTONE, 0)], Decrement(t.count))
  }

  function Remove(h: HashFn, t: Table, key: string): (Table, nat)
    requires Valid(h, t)
  {
    var p := Find(h, t, key);
    if p == -1 then (t, EMPTY)
    else
      BuriedSettles(h, t, p);
      (Settle(h, Bury(t, p)), t.items[p].value)
  }

  // A table whose bindings fit in half the slots with room to spare, if its counter says so.
  ghost predicate Settles(h: HashFn, t: Table) {
    && IsTableSize(|t.items|) && UniqueKeys(t.items) && ShortKeys(t.items)
    && (Underloaded(t) ==> Spacious(t.items, |t.items| / 2))
  }

  // The table is halved when a removal leaves it too sparse.
  function Settle(h: HashFn, t: Table): (r: Table)
    requires Settles(h, t)
    ensures Valid(h, t) || Underloaded(t) ==> Valid(h, r)
    ensures UniqueKeys(r.items) && Contents(r.items) == Contents(t.items)
  {
    if Underloaded(t) then
      HalfFits(h, t);
      Resize(h, t, |t.items| / 2)
    else t
  }

  lemma ReburyContents(items: seq<Item>, p: nat)
    requires UniqueKeys(items) && p < |items| && !Live(items[p])
    ensures UniqueKeys(items[p := Held(TOMBSTONE, 0)])
    ensures Contents(items[p := Held(TOMBSTONE, 0)]) == Contents(items)
  {
    var items' := items[p := Held(TOMBSTONE, 0)];
    assert forall q :: 0 <= q < |items| && q != p ==> items'[q] == items[q];
    assert !Live(items'[p]);
    forall k | k in Contents(items) ensures Stores(items', k) {
      var q :| 0 <= q < |items| && Live(items[q]) && items[q].key == k;
      assert items'[q] == items[q];
    }
    ContentsIs(items', Contents(items));
  }

  lemma ReburiedSettles(h: HashFn, t: Table, p: nat)
    requires Valid(h, t) && p < |t.items| && !Live(t.items[p])
    ensures Settles(h, Bury(t, p))
  {
    ReburyContents(t.items, p);
    var items' := t.items[p := Held(TOMBSTONE, 0)];
    assert ShortKeys(items') by {
      assert forall q :: 0 <= q < |items'| && Live(items'[q]) ==> items'[q] == t.items[q];
    }
    if Underloaded(Bury(t, p)) {
      ReburiedFits(h, t, p);
    }
  }

  lemma BuriedSettles(h: HashFn, t: Table, p: nat)
    requires Valid(h, t) && p < |t.items|
    ensures Settles(h, Bury(t, p))
    ensures Live(t.items[p]) ==> Valid(h, Bury(t, p))
  {
    if Live(t.items[p]) {
      BuryIsRemoval(h, t, p);
      ValidSettles(h, Bury(t, p));
    } else {
      ReburiedSettles(h, t, p);
    }
  }

  lemma ValidSettles(h: HashFn, t: Table)
    requires Valid(h, t)
    ensures Settles(h, t)
  {
    if Underloaded(t) {
      HalfIsSize(t);
    }
  }

  lemma HalfIsSize(t: Table)
    requires IsTableSize(|t.items|) && |t.items| > 2
    ensures IsTableSize(|t.items| / 2) && |t.items| % 4 == 0
  {
    var k: nat :| k <= 31 && |t.items| == Pow2(k);
    assert |t.items| == 2 * Pow2(k - 1) && Pow2(k - 1) == 2 * Pow2(k - 2);
  }

  lemma ReburiedFits(h: HashFn, t: Table, p: nat)
    requires Valid(h, t) && p < |t.items| && Underloaded(Bury(t, p))
    ensures UniqueKeys(t.items) && Spacious(t.items, |t.items| / 2)
  {
    HalfIsSize(t);
  }

  lemma BuryContents(items: seq<Item>, p: nat)
    requires UniqueKeys(items) && p < |items| && Live(items[p])
    ensures UniqueKeys(items[p := Held(TOMBSTONE, 0)])
    ensures Contents(items[p := Held(TOMBSTONE, 0)]) == Contents(items) - {items[p].key}
  {
    var items' := items[p := Held(TOMBSTONE, 0)];
    assert forall q :: 0 <= q < |items| && q != p ==> items'[q] == items[q];
    assert !Live(items'[p]);
    var m' := Contents(items) - {items[p].key};
    forall k | k in m' ensures Stores(items', k) {
      var q :| 0 <= q < |items| && Live(items[q]) && items[q].key == k;
      assert items'[q] == items[q];
    }
    ContentsIs(items', m');
  }

  lemma RemovalCount(m: map<string, nat>, k: string)
    requires k in m
    ensures |m - {k}| == |m| - 1
  {
    assert m == (m - {k})[k := m[k]];
  }

  lemma BuryIsRemoval(h: HashFn, t: Table, p: nat)
    requires Valid(h, t) && p < |t.items| && Live(t.items[p])
    ensures Valid(h, Bury(t, p))
    ensures Contents(Bury(t, p).items) == Contents(t.items) - {t.items[p].key}
  {
    BuryContents(t.items, p);
    HeldKeepsChains(h, t.items, p, Held(TOMBSTONE, 0));
    RemovalCount(Contents(t.items), t.items[p].key);
  }

  lemma HalfFits(h: HashFn, t: Table)
    requires Settles(h, t) && Underloaded(t)
    ensures Rehashable(t.items, |t.items| / 2)
  {
    var k: nat :| k <= 31 && |t.items| == Pow2(k);
    assert |t.items| / 2 == Pow2(k - 1);
  }

  // ---------- what they mean ----------

  lemma GetIsLookup(h: HashFn, t: Table, key: string)
    requires Valid(h, t) && Storable(key)
    ensures Get(h, t, key) == if key in Contents(t.items) then Contents(t.items)[key] else 0
  {
    FindIsLookup(h, t, key);
  }

  /** Removal, shrinking or not, takes out exactly the key and returns its value. */
  lemma RemoveIsMapRemove(h: HashFn, t: Table, key: string)
    requires Valid(h, t) && Storable(key)
    ensures var r := Remove(h, t, key);
      && Valid(h, r.0)
      && Contents(r.0.items) == Contents(t.items) - {key}
      && r.1 == (if key in Contents(t.items) then Contents(t.items)[key] else 0)
  {
    FindIsLookup(h, t, key);
    var p := Find(h, t, key);
    if p >= 0 {
      BuryIsRemoval(h, t, p);
    }
  }

  lemma SetContents(items: seq<Item>, p: nat, value: nat)
    requires UniqueKeys(items) && p < |items| && Live(items[p])
    ensures UniqueKeys(items[p := Held(items[p].key, value)])
    ensures Contents(items[p := Held(items[p].key, value)]) == Contents(items)[items[p].key := value]
  {
    var items' := items[p := Held(items[p].key, value)];
    assert forall q :: 0 <= q < |items| && q != p ==> items'[q] == items[q];
    assert Live(items'[p]);
    var m := Contents(items)[items[p].key := value];
    forall k | k in m ensures Stores(items', k) {
      var q :| 0 <= q < |items| && Live(items[q]) && items[q].key == k;
      assert Live(items'[q]);
    }
    ContentsIs(items', m);
  }

  lemma SetIsUpdate(h: HashFn, t: Table, p: nat, value: nat)
    requires Valid(h, t) && p < |t.items| && Live(t.items[p])
    ensures var t' := t.(items := t.items[p := Held(t.items[p].key, value)]);
      Valid(h, t') && Contents(t'.items) == Contents(t.items)[t.items[p].key := value]
  {
    SetContents(t.items, p, value);
    HeldKeepsChains(h, t.items, p, Held(t.items[p].key, value));
  }

  /** An increase adds to the stored value, modulo the word size, or inserts the key. */
  lemma IncreaseOfStored(h: HashFn, t: Table, key: string, incr: nat)
    requires Valid(h, t) && Storable(key) && key in Contents(t.items)
    ensures Find(h, t, key) != -1 && Valid(h, Increase(h, t, key, incr))
    ensures Contents(Increase(h, t, key, incr).items) ==
      Contents(t.items)[key := AddWord(Contents(t.items)[key], incr)]
  {
    FindIsLookup(h, t, key);
    SetIsUpdate(h, t, Find(h, t, key), AddWord(t.items[Find(h, t, key)].value, incr));
  }

  lemma IncreaseOfAbsent(h: HashFn, t: Table, key: string, incr: nat)
    requires Insertable(h, t, key) && Storable(key) && key !in Contents(t.items)
    ensures Increase(h, t, key, incr) == Insert(h, t, key, incr).0
  {
    FindIsLookup(h, t, key);
  }
}
