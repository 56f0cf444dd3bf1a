/**
 The hash table as the program runs it: an object whose array, size and counter are
 changed in place. Every method is tied to the operation of the same name on Table.
 */
module Hashmaps {
  import opened TriangularProbing
  import T = HashTable

  type HashFn = T.HashFn

  // The exponent of the least power of two that is not below n.
  function CeilLog2(n: nat): (k: nat)
    requires n > 0
    ensures n <= Pow2(k) && (k > 0 ==> Pow2(k - 1) < n)
  {
    if n == 1 then 0
    else
      var k := CeilLog2((n + 1) / 2) + 1;
      assert k > 1 ==> Pow2(k - 1) == 2 * Pow2(k - 2);
      k
  }

  lemma SmallLog(n: nat)
    requires 0 < n <= 0x8000_0000
    ensures CeilLog2(n) <= 31
  {
    var k := CeilLog2(n);
    Pow2Values();
    if k > 31 {
      Pow2Grows(31, k - 1);
    }
  }

  lemma {:induction false} Pow2Grows(k: nat, n: nat)
    requires k <= n
    ensures Pow2(k) <= Pow2(n)
    decreases n
  {
    if k < n {
      Pow2Grows(k, n - 1);
    }
  }

  // The tombstone an insertion has remembered after step n - 1, having read first at step 0.
  function TombstoneBefore(items: seq<T.Item>, index: nat, first: T.Item, n: nat): int
    requires |items| > 0 && n > 0
  {
    if T.IsTombstone(first) then index else T.FirstTombstone(items, index, 1, n)
  }

  lemma {:induction false} FirstTombstoneGrows(items: seq<T.Item>, index: nat, i: nat, n: nat)
    requires |items| > 0 && i <= n
    ensures T.FirstTombstone(items, index, i, n + 1) ==
      (var r := T.FirstTombstone(items, index, i, n);
       var p := ProbeAt(index, n, |items|);
       if r >= 0 then r else if T.IsTombstone(items[p]) then p else -1)
    decreases n - i
  {
    if i < n {
      FirstTombstoneGrows(items, index, i + 1, n);
    }
  }

  class Hashmap {
    const h: HashFn
    var items: array<T.Item>
    var size: nat
    var count: int

    ghost function Abs(): T.Table
      reads this, items
    {
      T.Table(items[..], count)
    }

    ghost predicate Valid()
      reads this, items
    {
      size == items.Length && T.Valid(h, Abs())
    }

    ghost function Map(): map<string, nat>
      requires Valid()
      reads this, items
    {
      T.Contents(items[..])
    }

    constructor Create(h: HashFn, requested: nat)
      requires 0 < requested <= 0x8000_0000
      ensures this.h == h && fresh(items)
      ensures Valid() && Map() == map[]
      ensures requested <= size && (size > 1 ==> size / 2 < requested)
      ensures Abs() == T.EmptyTable(size)
    {
      this.h := h;
      var s := Pow2(CeilLog2(requested));
      size := s;
      count := 0;
      items := new T.Item[s](_ => T.Null);
      new;
      SmallLog(requested);
      assert items[..] == T.EmptyTable(size).items;
      T.EmptyTableIsValid(h, size);
      assert size > 1 ==> size == 2 * Pow2(CeilLog2(requested) - 1);
    }

    // Called to double an overloaded table or to halve a sparse one; the bound on the counter
    // is what those two callers have in common.
    method Resize(newSize: nat)
      requires size == items.Length && T.Rehashable(items[..], newSize)
      requires T.Spacious(items[..], newSize)
      modifies this
      ensures Valid() && fresh(items) && size == newSize
      ensures Abs() == T.Resize(h, old(Abs()), newSize)
      ensures Map() == old(T.Contents(items[..]))
      decreases 1, 1
    {
      var oldSize, oldItems := size, items;
      size := newSize;
      count := 0;
      items := new T.Item[newSize](_ => T.Null);
      ghost var olds := oldItems[..];
      assert items[..] == T.EmptyTable(newSize).items;
      T.RehashStart(h, olds, newSize);

      for i := 0 to oldSize
        invariant items != oldItems && fresh(items) && oldItems[..] == olds
        invariant size == newSize == items.Length
        invariant Abs() == T.Rehash(h, olds, i, newSize)
      {
        CopyItem(oldItems[i], olds, i);
      }
    }

    // Slot i of the old array is visited.
    method CopyItem(it: T.Item, ghost olds: seq<T.Item>, ghost i: nat)
      requires size == items.Length && T.Rehashable(olds, size) && i < |olds| && it == olds[i]
      requires T.Spacious(olds, size)
      requires Abs() == T.Rehash(h, olds, i, size)
      modifies this, items
      ensures items == old(items) && size == old(size) && Abs() == T.Rehash(h, olds, i + 1, size)
      decreases 1, 0
    {
      T.RehashInserts(h, olds, i, size);
      if it.Held? && !T.SameKey(it.key, T.TOMBSTONE) {
        var added := Insert(it.key, it.value);
      }
    }

    method Find(key: string) returns (r: int)
      requires Valid()
      ensures r == T.Find(h, Abs(), key)
      ensures T.Storable(key) ==>
        if key in Map() then 0 <= r < size && items[r] == T.Held(key, Map()[key]) else r == -1
    {
      ghost var its := items[..];
      if T.Storable(key) {
        T.FindIsLookup(h, Abs(), key);
      }
      var index := h(key) % size;
      var currentPos := index;
      var current := items[index];
      var i := 0;
      ProbeStart(index, size);
      while i < size && current.Held?
        invariant 0 <= i <= size && currentPos == ProbeAt(index, i, size) && current == items[currentPos]
        invariant T.FindFrom(its, index, key, i) == T.FindFrom(its, index, key, 0)
      {
        if T.SameKey(current.key, key) {
          return currentPos;
        }
        i := i + 1;
        currentPos := AddWord(index, Jump(i)) % size;
        current := items[currentPos];
      }
      return -1;
    }

    method Get(key: string) returns (value: nat)
      requires Valid()
      ensures value == T.Get(h, Abs(), key)
      ensures T.Storable(key) ==> value == if key in Map() then Map()[key] else 0
    {
      if T.Storable(key) {
        T.GetIsLookup(h, Abs(), key);
      }
      var pos := Find(key);
      if pos == -1 {
        return T.EMPTY;
      }
      return items[pos].value;
    }

    method Increase(key: string, incr: nat)
      requires Valid() && (T.Find(h, Abs(), key) == -1 ==> T.Insertable(h, Abs(), key))
      modifies this, items
      ensures size == items.Length && Abs() == T.Increase(h, old(Abs()), key, incr)
    {
      var i := Find(key);
      if i < 0 {
        var added := Insert(key, incr);
      } else {
        items[i] := T.Held(items[i].key, AddWord(items[i].value, incr));
      }
    }

    // The insertion loop, entered at slot index with the item read there.
    method ScanForInsert(key: string, index: nat, first: T.Item)
      returns (current: T.Item, currentPos: nat, idTombstone: int)
      requires index < size == items.Length
      requires first.Held? && !T.SameKey(first.key, key) ==> T.Ends(items[..], index, key, 1)
      ensures T.Target(items[..], index, first, key) ==
        if current.Held? then -1 else if idTombstone >= 0 then idTombstone else currentPos
    {
      currentPos, current := index, first;
      var i := 0;
      idTombstone := -1;
      ghost var its := items[..];
      ghost var last := if first.Held? && !T.SameKey(first.key, key) then T.StopAt(its, index, key, 1) else 0;
      while current.Held? && !T.SameKey(current.key, key)
        invariant 0 <= i <= last
        invariant i == 0 ==> currentPos == index && current == first && idTombstone == -1
        invariant i > 0 ==>
          && currentPos == ProbeAt(index, i, size) && current == its[currentPos]
          && idTombstone == TombstoneBefore(its, index, first, i)
        decreases last - i
      {
        if T.SameKey(current.key, T.TOMBSTONE) && idTombstone < 0 {
          idTombstone := currentPos;
        }
        if i > 0 {
          FirstTombstoneGrows(its, index, 1, i);
          assert !T.Stops(its, index, key, i) && T.Stops(its, index, key, last);
        }
        assert i < last;
        i := i + 1;
        currentPos := AddWord(index, Jump(i)) % size;
        current := items[currentPos];
      }
      assert i > 0 ==> T.Stops(its, index, key, i);
      assert i == last;
    }

    method Fill(p: nat, key: string, value: nat)
      requires p < size == items.Length
      modifies this`count, items
      ensures Abs() == T.Write(old(Abs()), p, key, value)
    {
      items[p] := T.Held(key, value);
      count := count + 1;
      assert items[..] == old(items[..])[p := T.Held(key, value)];
    }

    // The table doubles when its load is too high.
    method MakeRoom()
      requires Valid() && (T.Overloaded(Abs()) ==> IsTableSize(2 * size))
      modifies this
      ensures size == items.Length && Abs() == T.Working(h, old(Abs()))
      ensures if old(T.Overloaded(Abs())) then fresh(items) else items == old(items)
      decreases if T.Overloaded(Abs()) then 2 else 0, 0
    {
      if 4 * count >= 3 * size {
        T.CountFits(items[..]);
        Resize(2 * size);
      }
    }

    // The start slot and its key are read before the table may grow, and used after.
    method Insert(key: string, value: nat) returns (added: int)
      requires Valid() && T.Insertable(h, Abs(), key)
      modifies this, items
      ensures size == items.Length && (Abs(), added) == T.Insert(h, old(Abs()), key, value)
      ensures if old(|key| <= T.KEY_MAXLEN && T.Overloaded(Abs())) then fresh(items) else items == old(items)
      decreases if T.Overloaded(Abs()) then 2 else 0, 1
    {
      if |key| > T.KEY_MAXLEN {
        return -1;
      }
      var index := h(key) % size;
      var first := items[index];

      T.InsertIsPlace(h, Abs(), key, value);
      MakeRoom();

      var current, currentPos, idTombstone := ScanForInsert(key, index, first);
      if current.Null? {
        Fill(if idTombstone >= 0 then idTombstone else currentPos, key, value);
        return 1;
      }
      return 0;
    }

    method Bury(p: nat)
      requires p < size == items.Length
      modifies this`count, items
      ensures Abs() == T.Bury(old(Abs()), p)
    {
      items[p] := T.Held(T.TOMBSTONE, 0);
      count := if count == 0 then WORD - 1 else count - 1;
      assert items[..] == old(items[..])[p := T.Held(T.TOMBSTONE, 0)];
    }

    // The table halves when a removal leaves its load too low.
    method Settle()
      requires size == items.Length && T.Settles(h, Abs())
      modifies this
      ensures size == items.Length && Abs() == T.Settle(h, old(Abs()))
    {
      if size > 2 && 4 * count < size {
        T.HalfFits(h, Abs());
        Resize(size / 2);
      }
    }

    method Remove(key: string) returns (value: nat)
      requires Valid()
      modifies this, items
      ensures size == items.Length && (Abs(), value) == T.Remove(h, old(Abs()), key)
      ensures key != T.TOMBSTONE ==> Valid()
      ensures T.Storable(key) ==>
        && Map() == old(Map()) - {key}
        && value == if key in old(Map()) then old(Map())[key] else 0
    {
      if T.Storable(key) {
        T.RemoveIsMapRemove(h, Abs(), key);
      }
      var pos := Find(key);
      if pos < 0 {
        return T.EMPTY;
      }
      value := items[pos].value;
      T.BuriedSettles(h, Abs(), pos);
      Bury(pos);
      Settle();
    }
  }
}
