/**
 Which slot an operation writes, and how large a table it leaves: an insertion takes the first slot of
 its probe that holds no key, so removed slots are used again before free ones are.
 */
module InsertionSlots {
  import opened TriangularProbing
  import opened HashTable
  import opened GrowingInsert
  import opened HashTableRuns

  // ---------- the slot a search meets ----------

  // Step n of the probe, from step i on, meets a key that agrees with this one in its first 256 characters,
  // and the steps between no free slot.
  ghost predicate MeetsAt(items: seq<Item>, index: nat, key: string, i: nat, n: nat)
    requires |items| > 0
  {
    && i <= n < |items|
    && (forall j :: i <= j <= n ==> items[ProbeAt(index, j, |items|)].Held?)
    && var k := items[ProbeAt(index, n, |items|)].key; SameStart(k, key)
  }

  // The first 256 characters agree, or all of them.
  predicate SameStart(a: string, b: string) {
    if |a| >= 256 && |b| >= 256 then a[..256] == b[..256] else a == b
  }

  lemma SameKeyIs(a: string, b: string)
    ensures SameKey(a, b) <==> SameStart(a, b)
  {
  }

  lemma {:induction false} FoundIff(items: seq<Item>, index: nat, key: string, i: nat)
    requires |items| > 0 && i <= |items|
    ensures FindFrom(items, index, key, i) >= 0 <==> exists n :: MeetsAt(items, index, key, i, n)
    decreases |items| - i
  {
    if i < |items| && items[ProbeAt(index, i, |items|)].Held? {
      var k := items[ProbeAt(index, i, |items|)].key;
      SameKeyIs(k, key);
      if SameStart(k, key) {
        assert MeetsAt(items, index, key, i, i);
      } else {
        FoundIff(items, index, key, i + 1);
        FoundLater(items, index, key, i, i + 1);
      }
    }
  }

  lemma FoundLater(items: seq<Item>, index: nat, key: string, i: nat, next: nat)
    requires next == i + 1 && i < |items| && items[ProbeAt(index, i, |items|)].Held?
    requires !SameStart(items[ProbeAt(index, i, |items|)].key, key)
    ensures (exists n :: MeetsAt(items, index, key, i, n)) <==> exists n :: MeetsAt(items, index, key, next, n)
  {
    if n :| MeetsAt(items, index, key, i, n) {
      assert MeetsAt(items, index, key, next, n);
    }
    if n :| MeetsAt(items, index, key, next, n) {
      assert MeetsAt(items, index, key, i, n);
    }
  }

  /** A search for any key, too long to be stored or not, finds a slot exactly when its probe meets a key with
      the same first 256 characters before a free slot, and the slot it finds holds such a key. */
  lemma SearchComparesStart(h: HashFn, t: Table, key: string)
    requires |t.items| > 0
    ensures Find(h, t, key) >= 0 <==> exists n :: MeetsAt(t.items, h(key) % |t.items|, key, 0, n)
    ensures Find(h, t, key) >= 0 ==>
      t.items[Find(h, t, key)].Held? && SameStart(t.items[Find(h, t, key)].key, key)
  {
    FoundIff(t.items, h(key) % |t.items|, key, 0);
    if Find(h, t, key) >= 0 {
      SameKeyIs(t.items[Find(h, t, key)].key, key);
    }
  }

  // ---------- the slot an insertion fills ----------

  // Step j of the probe from index is the first at a slot that holds no key.
  ghost predicate FirstOpening(items: seq<Item>, index: nat, j: nat)
    requires |items| > 0
  {
    && j < |items| && !Live(items[ProbeAt(index, j, |items|)])
    && forall i :: 0 <= i < j ==> Live(items[ProbeAt(index, i, |items|)])
  }

  // Where the insertion loop remembers its tombstone.
  lemma {:induction false} TombstoneIsFirst(items: seq<Item>, index: nat, i: nat, n: nat) returns (j: nat)
    requires |items| > 0 && i <= n
    ensures i <= j <= n && forall l :: i <= l < j ==> !IsTombstone(items[ProbeAt(index, l, |items|)])
    ensures var r := FirstTombstone(items, index, i, n);
      if r >= 0 then j < n && ProbeAt(index, j, |items|) == r && IsTombstone(items[r]) else j == n
    decreases n - i
  {
    if i == n || IsTombstone(items[ProbeAt(index, i, |items|)]) {
      j := i;
    } else {
      j := TombstoneIsFirst(items, index, i + 1, n);
    }
  }

  lemma PassedIsLive(items: seq<Item>, index: nat, key: string, i: nat, n: nat, j: nat)
    requires |items| > 0 && Passes(items, index, key, i, n) && j <= n
    requires forall l :: i <= l < j ==> !IsTombstone(items[ProbeAt(index, l, |items|)])
    ensures forall l :: i <= l < j ==> Live(items[ProbeAt(index, l, |items|)])
  {
    forall l | i <= l < j ensures Live(items[ProbeAt(index, l, |items|)]) {
      assert !Stops(items, index, key, l);
    }
  }

  // The step at which an insertion of a new key that read cur at step 0 writes.
  lemma TargetIsOpening(items: seq<Item>, index: nat, key: string, n: nat) returns (j: nat)
    requires IsTableSize(|items|) && index < |items| && key != TOMBSTONE && |key| <= KEY_MAXLEN
    requires Ends(items, index, key, 0) && n == StopAt(items, index, key, 0)
    requires items[ProbeAt(index, n, |items|)].Null?
    requires items[index].Held? && !SameKey(items[index].key, key) ==> Ends(items, index, key, 1)
    ensures FirstOpening(items, index, j) && Target(items, index, items[index], key) == ProbeAt(index, j, |items|)
    ensures j <= n
  {
    ProbeStart(index, |items|);
    NullStopIsEarly(items, index, key, n);
    if items[index].Null? || IsTombstone(items[index]) {
      j := 0;
    } else {
      assert !Stops(items, index, key, 0);
      assert StopAt(items, index, key, 1) == n;
      j := TombstoneIsFirst(items, index, 1, n);
      PassedIsLive(items, index, key, 1, n, j);
    }
  }

  lemma NewKeyEndsFree(h: HashFn, t: Table, key: string)
    requires Valid(h, t) && Storable(key) && CanPlace(h, t, key) && key !in Contents(t.items)
    ensures var index := h(key) % |t.items|;
      t.items[ProbeAt(index, StopAt(t.items, index, key, 0), |t.items|)].Null?
  {
    var index := h(key) % |t.items|;
    var it := t.items[ProbeAt(index, StopAt(t.items, index, key, 0), |t.items|)];
    if it.Held? {
      assert Live(it);
    }
  }

  lemma PlacesAtFirstOpening(h: HashFn, t: Table, key: string, value: nat) returns (j: nat)
    requires Valid(h, t) && CanPlace(h, t, key) && Storable(key) && key !in Contents(t.items)
    ensures FirstOpening(t.items, h(key) % |t.items|, j)
    ensures var p := ProbeAt(h(key) % |t.items|, j, |t.items|);
      InsertInPlace(h, t, key, value) == (Table(t.items[p := Held(key, value)], t.count + 1), 1)
  {
    var index := h(key) % |t.items|;
    NewKeyEndsFree(h, t, key);
    ProbeStart(index, |t.items|);
    j := TargetIsOpening(t.items, index, key, StopAt(t.items, index, key, 0));
  }

  /** An insertion of a new key that does not grow the table writes at the first step of the key's probe
      whose slot holds no key, be it free or removed, and nowhere else. */
  lemma FillsFirstOpening(h: HashFn, t: Table, key: string, value: nat) returns (j: nat)
    requires Insertable(h, t, key) && Storable(key) && key !in Contents(t.items) && !Overloaded(t)
    ensures FirstOpening(t.items, h(key) % |t.items|, j)
    ensures var p := ProbeAt(h(key) % |t.items|, j, |t.items|);
      Insert(h, t, key, value) == (Table(t.items[p := Held(key, value)], t.count + 1), 1)
  {
    j := PlacesAtFirstOpening(h, t, key, value);
  }

  // ---------- free slots are not used up ----------

  function Nulls(items: seq<Item>): nat {
    if items == [] then 0
    else Nulls(items[..|items| - 1]) + if items[|items| - 1].Null? then 1 else 0
  }

  lemma {:induction false} NullsAfter(items: seq<Item>, p: nat, it: Item)
    requires p < |items| && it.Held?
    ensures Nulls(items[p := it]) == Nulls(items) - if items[p].Null? then 1 else 0
    ensures items[p].Null? ==> Nulls(items) > 0
    decreases |items|
  {
    var n := |items| - 1;
    if p < n {
      NullsAfter(items[..n], p, it);
      assert items[p := it][..n] == items[..n][p := it];
    } else {
      assert items[p := it][..n] == items[..n];
    }
  }

  lemma FreeFirstIff(items: seq<Item>, index: nat, j: nat)
    requires |items| > 0 && FirstOpening(items, index, j)
    ensures FreeFirst(items, index) <==> items[ProbeAt(index, j, |items|)].Null?
  {
    if items[ProbeAt(index, j, |items|)].Null? {
      assert FreeAt(items, index, 0, j) && NoneRemoved(items, index, j);
    }
    if FreeFirst(items, index) {
      var n: nat :| FreeAt(items, index, 0, n) && NoneRemoved(items, index, n);
      assert n >= j;
      if n > j {
        assert !IsTombstone(items[ProbeAt(index, j, |items|)]);
      }
    }
  }

  /** A free slot is used up exactly when no removed slot comes before it on the probe: as long as one
      does, an insertion leaves as many free slots as there were. */
  lemma NullsDropIff(h: HashFn, t: Table, key: string, value: nat)
    requires Insertable(h, t, key) && Storable(key) && key !in Contents(t.items) && !Overloaded(t)
    ensures Nulls(Insert(h, t, key, value).0.items) ==
      Nulls(t.items) - if FreeFirst(t.items, h(key) % |t.items|) then 1 else 0
  {
    var j := FillsFirstOpening(h, t, key, value);
    FreeFirstIff(t.items, h(key) % |t.items|, j);
    NullsAfter(t.items, ProbeAt(h(key) % |t.items|, j, |t.items|), Held(key, value));
  }

  lemma FindMeets(h: HashFn, t: Table, key: string, p: nat)
    requires Valid(h, t) && Storable(key) && p < |t.items| && t.items[p].Held? && t.items[p].key == key
    ensures Find(h, t, key) == p && Live(t.items[p])
  {
    assert Live(t.items[p]);
    FindIsLookup(h, t, key);
  }

  /** What a removal leaves where the key was is met by every probe as before, and is no free slot: a
      removal that does not shrink the table changes that one slot, and no free slot comes or goes. */
  lemma RemovalMarksOneSlot(h: HashFn, t: Table, key: string, p: nat)
    requires Valid(h, t) && Storable(key) && p < |t.items| && t.items[p].Held? && t.items[p].key == key
    requires !(|t.items| > 2 && 4 * (t.count - 1) < |t.items|)
    ensures Remove(h, t, key) == (Table(t.items[p := Held("$", 0)], t.count - 1), t.items[p].value)
    ensures Nulls(Remove(h, t, key).0.items) == Nulls(t.items)
  {
    FindMeets(h, t, key, p);
    NullsAfter(t.items, p, Held("$", 0));
  }

  // ---------- where a new size puts the keys ----------

  // Slot q of r holds the key of a slot of items below p.
  ghost predicate FromBelow(items: seq<Item>, r: seq<Item>, q: nat, p: nat)
    requires q < |r| && p <= |items|
  {
    exists o :: 0 <= o < p && Live(items[o]) && r[q] == items[o]
  }

  // The key of slot p has been put at step j of its probe, and the steps before are at keys of lower slots.
  ghost predicate PutAt(h: HashFn, items: seq<Item>, r: seq<Item>, p: nat, j: nat)
    requires |r| > 0 && p < |items| && Live(items[p])
  {
    var index := h(items[p].key) % |r|;
    && j < |r| && r[ProbeAt(index, j, |r|)] == items[p]
    && forall i :: 0 <= i < j ==> FromBelow(items, r, ProbeAt(index, i, |r|), p)
  }

  ghost predicate PutInOrder(h: HashFn, items: seq<Item>, r: seq<Item>, n: nat)
    requires |r| > 0 && n <= |items|
  {
    forall p :: 0 <= p < n && Live(items[p]) ==> exists j :: PutAt(h, items, r, p, j)
  }

  lemma LiveComesFromBelow(h: HashFn, items: seq<Item>, n: nat, size: nat, t: Table, q: nat)
    requires n <= |items| && Rehashed(h, items, n, size, t) && q < |t.items| && Live(t.items[q])
    ensures FromBelow(items, t.items, q, n)
  {
    var key := t.items[q].key;
    assert key in Contents(items[..n]) && Stores(items[..n], key);
    var o :| 0 <= o < |items[..n]| && Live(items[..n][o]) && items[..n][o].key == key;
    assert items[o] == items[..n][o];
  }

  // Filling a free slot moves no key.
  lemma PutStays(h: HashFn, items: seq<Item>, r: seq<Item>, w: nat, it: Item, p: nat, j: nat)
    requires w < |r| && r[w].Null? && p < |items| && Live(items[p]) && PutAt(h, items, r, p, j)
    ensures PutAt(h, items, r[w := it], p, j)
  {
    var index, r' := h(items[p].key) % |r|, r[w := it];
    forall i | 0 <= i < j ensures FromBelow(items, r', ProbeAt(index, i, |r|), p) {
      var o :| 0 <= o < p && Live(items[o]) && r[ProbeAt(index, i, |r|)] == items[o];
      assert r'[ProbeAt(index, i, |r|)] == items[o];
    }
  }

  // The keys put before stay where they are.
  lemma OldStayPut(h: HashFn, items: seq<Item>, n: nat, r: seq<Item>, w: nat, it: Item, r': seq<Item>)
    requires w < |r| && r[w].Null? && n <= |items| && PutInOrder(h, items, r, n) && r' == r[w := it]
    ensures PutInOrder(h, items, r', n)
  {
    forall p | 0 <= p < n && Live(items[p]) ensures exists i :: PutAt(h, items, r', p, i) {
      var i :| PutAt(h, items, r, p, i);
      PutStays(h, items, r, w, it, p, i);
    }
  }

  // The steps before the slot filled are at keys of lower slots.
  lemma NewIsPut(h: HashFn, items: seq<Item>, n: nat, size: nat, t: Table, j: nat)
    requires n < |items| && Rehashed(h, items, n, size, t) && Live(items[n])
    requires FirstOpening(t.items, h(items[n].key) % size, j)
    ensures var w := ProbeAt(h(items[n].key) % size, j, size);
      t.items[w].Null? && PutAt(h, items, t.items[w := items[n]], n, j)
  {
    var index := h(items[n].key) % size;
    var r := t.items[ProbeAt(index, j, size) := items[n]];
    forall i | 0 <= i < j ensures FromBelow(items, r, ProbeAt(index, i, size), n) {
      LiveComesFromBelow(h, items, n, size, t, ProbeAt(index, i, size));
      var o :| 0 <= o < n && Live(items[o]) && t.items[ProbeAt(index, i, size)] == items[o];
      assert r[ProbeAt(index, i, size)] == items[o];
    }
  }

  lemma CopyPuts(h: HashFn, items: seq<Item>, n: nat, size: nat, t: Table, t': Table)
    requires n < |items| && Rehashed(h, items, n, size, t) && Live(items[n]) && CanPlace(h, t, items[n].key)
    requires Storable(items[n].key) && items[n].key !in Contents(t.items)
    requires t' == InsertInPlace(h, t, items[n].key, items[n].value).0 && PutInOrder(h, items, t.items, n)
    ensures |t'.items| > 0 && PutInOrder(h, items, t'.items, n + 1)
  {
    var j := PlacesAtFirstOpening(h, t, items[n].key, items[n].value);
    NewIsPut(h, items, n, size, t, j);
    OldStayPut(h, items, n, t.items, ProbeAt(h(items[n].key) % size, j, size), items[n], t'.items);
    assert PutAt(h, items, t'.items, n, j);
  }

  lemma VisitPuts(h: HashFn, items: seq<Item>, n: nat, size: nat, t: Table)
    requires Rehashable(items, size) && n < |items| && Rehashed(h, items, n, size, t)
    requires Live(items[n]) ==> CanPlace(h, t, items[n].key)
    requires PutInOrder(h, items, t.items, n)
    ensures |Copy(h, t, items[n]).items| > 0 && PutInOrder(h, items, Copy(h, t, items[n]).items, n + 1)
  {
    if Live(items[n]) {
      PrefixContents(items, n);
      CopyPuts(h, items, n, size, t, Copy(h, t, items[n]));
    }
  }

  // The table that rehashing the first n old slots leaves has put their keys in order.
  ghost predicate RehashedInOrder(h: HashFn, items: seq<Item>, n: nat, size: nat)
    requires Rehashable(items, size) && n <= |items|
  {
    PutInOrder(h, items, Rehash(h, items, n, size).items, n)
  }

  lemma RehashPutsNext(h: HashFn, items: seq<Item>, n: nat, size: nat)
    requires Rehashable(items, size) && n < |items|
    requires RehashedInOrder(h, items, n, size)
    ensures RehashedInOrder(h, items, n + 1, size)
  {
    RehashUnfolds(h, items, n, size);
    VisitPuts(h, items, n, size, Rehash(h, items, n, size));
  }

  lemma {:induction false} RehashPuts(h: HashFn, items: seq<Item>, n: nat, size: nat)
    requires Rehashable(items, size) && n <= |items|
    ensures RehashedInOrder(h, items, n, size)
    decreases n
  {
    if n > 0 {
      RehashPuts(h, items, n - 1, size);
      RehashPutsNext(h, items, n - 1, size);
    }
  }

  /** A new size puts the keys in the order of their old slots: each comes to the first step of its probe that
      the keys of lower slots have left free. */
  lemma ResizePutsInOrder(h: HashFn, t: Table, size: nat)
    requires Rehashable(t.items, size)
    ensures PutInOrder(h, t.items, Resize(h, t, size).items, |t.items|)
  {
    RehashPuts(h, t.items, |t.items|, size);
  }

  // ---------- sizes ----------

  /** An insertion of a key of at most 256 characters doubles the table exactly when it is three quarters
      full; a longer key is refused and changes nothing. */
  lemma InsertSizes(h: HashFn, t: Table, key: string, value: nat)
    requires Insertable(h, t, key)
    ensures |Insert(h, t, key, value).0.items| ==
      if |key| <= 256 && 4 * t.count >= 3 * |t.items| then 2 * |t.items| else |t.items|
    ensures |key| > 256 <==> Insert(h, t, key, value).1 == -1
    ensures |key| > 256 ==> Insert(h, t, key, value).0 == t
  {
    if |key| <= KEY_MAXLEN {
      InsertIsPlace(h, t, key, value);
    }
  }

  /** A removal of a stored key halves a table of more than two slots exactly when less than a quarter of
      it is left in use. */
  lemma RemoveSizes(h: HashFn, t: Table, key: string)
    requires Valid(h, t) && Storable(key)
    ensures |Remove(h, t, key).0.items| ==
      if key in Contents(t.items) && |t.items| > 2 && 4 * (t.count - 1) < |t.items| then |t.items| / 2
      else |t.items|
  {
    FindIsLookup(h, t, key);
  }

  // ---------- removing the reserved word ----------

  // The counter after one removal, in a word.
  function OneLess(count: int): int {
    if count == 0 then 0xffff_ffff else count - 1
  }

  /** Removing the reserved word takes out no binding. Where its probe meets a removed slot before a free one
      the counter goes down all the same, from zero to the largest word, and no longer counts the bindings,
      unless that makes the table shrink, which counts them again. Elsewhere nothing changes. */
  lemma RemovingReserved(h: HashFn, t: Table)
    requires Valid(h, t)
    ensures var r, size := Remove(h, t, "$"), |t.items|;
      && UniqueKeys(r.0.items) && Contents(r.0.items) == Contents(t.items)
      && if !(exists n :: MeetsAt(t.items, h("$") % size, "$", 0, n)) then r == (t, 0)
         else if size > 2 && 4 * OneLess(t.count) < size then Valid(h, r.0) && |r.0.items| == size / 2
         else r.0.count == OneLess(t.count) && |r.0.items| == size && !Valid(h, r.0)
  {
    SearchComparesStart(h, t, "$");
    var p := Find(h, t, "$");
    if p >= 0 {
      ReservedIsMark(t.items[p]);
      ReburyContents(t.items, p);
      BuriedSettles(h, t, p);
    }
  }

  lemma ReservedIsMark(it: Item)
    requires it.Held? && SameStart(it.key, "$")
    ensures IsTombstone(it) && !Live(it)
  {
    SameKeyIs(it.key, "$");
  }

  // At most one binding above three quarters.
  predicate RoomKept(t: Table) {
    4 * (t.count - 1) < 3 * |t.items|
  }

  lemma InsertKeepsRoom(h: HashFn, t: Table, key: string, value: nat)
    requires Insertable(h, t, key) && RoomKept(t) && InsertIsMapInsert(h, t, key, value)
    ensures RoomKept(Insert(h, t, key, value).0)
  {
    InsertSizes(h, t, key, value);
  }

  lemma IncreaseKeepsRoom(h: HashFn, t: Table, key: string, value: nat)
    requires Valid(h, t) && Storable(key) && RoomKept(t)
    requires key !in Contents(t.items) ==> Insertable(h, t, key) && InsertIsMapInsert(h, t, key, value)
    ensures (Find(h, t, key) == -1 ==> Insertable(h, t, key)) && RoomKept(Increase(h, t, key, value))
  {
    FindIsLookup(h, t, key);
    if key !in Contents(t.items) {
      IncreaseOfAbsent(h, t, key, value);
      InsertKeepsRoom(h, t, key, value);
    }
  }

  lemma RemoveKeepsRoom(h: HashFn, t: Table, key: string)
    requires Valid(h, t) && Storable(key) && RoomKept(t)
    ensures RoomKept(Remove(h, t, key).0)
  {
    RemoveSizes(h, t, key);
    RemoveIsMapRemove(h, t, key);
    if key in Contents(t.items) {
      RemovalCount(Contents(t.items), key);
    } else {
      assert Contents(t.items) - {key} == Contents(t.items);
    }
  }

  lemma ReadyInsertion(h: HashFn, t: Table, op: Op)
    requires Valid(h, t) && Ready(h, t, op) && Inserts(t, op)
    ensures Insertable(h, t, op.key) && InsertIsMapInsert(h, t, op.key, op.value)
  {
    InsertRefinesIff(h, t, op.key, op.value);
  }

  lemma ApplyKeepsRoom(h: HashFn, t: Table, op: Op)
    requires Valid(h, t) && Ready(h, t, op) && RoomKept(t)
    ensures RoomKept(Apply(h, t, op).0)
  {
    if Inserts(t, op) {
      ReadyInsertion(h, t, op);
    }
    match op
    case OpInsert(key, value) => InsertKeepsRoom(h, t, key, value);
    case OpIncrease(key, value) => IncreaseKeepsRoom(h, t, key, value);
    case OpRemove(key) => RemoveKeepsRoom(h, t, key);
    case OpGet(key) =>
    case OpFind(key) =>
  }

  /** So over any run a table is never more than one binding above three quarters full. */
  lemma {:induction false} RunKeepsRoom(h: HashFn, t: Table, ops: seq<Op>)
    requires Valid(h, t) && Runnable(h, t, ops) && RoomKept(t)
    ensures RoomKept(Run(h, t, ops).0)
    decreases |ops|
  {
    if ops != [] {
      ApplyRefines(h, t, ops[0]);
      ApplyKeepsRoom(h, t, ops[0]);
      RunKeepsRoom(h, Apply(h, t, ops[0]).0, ops[1..]);
    }
  }
}
