/**
 Any sequence of table operations against the same sequence on a finite map.
 */
module HashTableRuns {
  import opened TriangularProbing
  import opened HashTable
  import opened GrowingInsert
  import opened JenkinsHash

  datatype Op =
    | OpInsert(key: string, value: nat)
    | OpIncrease(key: string, value: nat)
    | OpRemove(key: string)
    | OpGet(key: string)
    | OpFind(key: string)

  // The operation comes to an insertion.
  ghost predicate Inserts(t: Table, op: Op)
    requires UniqueKeys(t.items)
  {
    op.OpInsert? || (op.OpIncrease? && op.key !in Contents(t.items))
  }

  // The operation runs to its end.
  ghost predicate Terminates(h: HashFn, t: Table, op: Op)
    requires Valid(h, t)
  {
    Storable(op.key) && (Inserts(t, op) ==> Insertable(h, t, op.key))
  }

  // If it grows the table, its stale start slot does no harm.
  ghost predicate Lands(h: HashFn, t: Table, op: Op)
    requires Valid(h, t) && Terminates(h, t, op)
  {
    Inserts(t, op) && Overloaded(t) ==> GrowthLands(h, t, op.key)
  }

  ghost predicate Ready(h: HashFn, t: Table, op: Op)
    requires Valid(h, t)
  {
    Terminates(h, t, op) && Lands(h, t, op)
  }

  /** Exactly when an operation runs to its end: an insertion needs room to double an overloaded
      table, and in any other a free slot unless the key is stored. */
  lemma TerminatesIff(h: HashFn, t: Table, op: Op)
    requires Valid(h, t) && Storable(op.key)
    ensures Terminates(h, t, op) <==>
      (Inserts(t, op) ==>
         if Overloaded(t) then IsTableSize(2 * |t.items|) else op.key in Contents(t.items) || HasNull(t.items))
  {
    LoopEndsIff(h, t, op.key);
  }

  function Apply(h: HashFn, t: Table, op: Op): (Table, int)
    requires Valid(h, t) && Terminates(h, t, op)
  {
    FindIsLookup(h, t, op.key);
    match op
    case OpInsert(key, value) => Insert(h, t, key, value)
    case OpIncrease(key, value) => (Increase(h, t, key, value), 0)
    case OpRemove(key) => Remove(h, t, key)
    case OpGet(key) => (t, Get(h, t, key))
    case OpFind(key) => (t, if Find(h, t, key) >= 0 then 1 else 0)
  }

  function ApplyToMap(m: map<string, nat>, op: Op): (map<string, nat>, int) {
    match op
    case OpInsert(key, value) => if key in m then (m, 0) else (m[key := value], 1)
    case OpIncrease(key, value) => (m[key := if key in m then AddWord(m[key], value) else value], 0)
    case OpRemove(key) => (m - {key}, if key in m then m[key] else 0)
    case OpGet(key) => (m, if key in m then m[key] else 0)
    case OpFind(key) => (m, if key in m then 1 else 0)
  }

  lemma InsertRefinesIff(h: HashFn, t: Table, key: string, value: nat)
    requires Insertable(h, t, key) && Storable(key)
    ensures InsertIsMapInsert(h, t, key, value) <==> (Overloaded(t) ==> GrowthLands(h, t, key))
  {
    if Overloaded(t) {
      GrowingInsertExactly(h, t, key, value);
    } else {
      InsertInPlaceIsMapInsert(h, t, key, value);
    }
  }

  // The operation gives the map's answer and leaves the map's contents.
  ghost predicate Refines(h: HashFn, t: Table, op: Op)
    requires Valid(h, t) && Terminates(h, t, op)
  {
    var r := Apply(h, t, op);
    Valid(h, r.0) && (Contents(r.0.items), r.1) == ApplyToMap(Contents(t.items), op)
  }

  // A new key is always reported as added.
  lemma NewIsReported(h: HashFn, t: Table, key: string, value: nat)
    requires Insertable(h, t, key) && Storable(key) && key !in Contents(t.items)
    ensures Insert(h, t, key, value).1 == 1
  {
    if Overloaded(t) {
      TargetOfNew(h, t, key);
      InsertIsPlace(h, t, key, value);
    } else {
      InsertInPlaceIsMapInsert(h, t, key, value);
    }
  }

  lemma InsertCase(h: HashFn, t: Table, key: string, value: nat)
    requires Valid(h, t) && Terminates(h, t, OpInsert(key, value))
    ensures Refines(h, t, OpInsert(key, value)) <==> Lands(h, t, OpInsert(key, value))
  {
    InsertRefinesIff(h, t, key, value);
  }

  lemma IncreaseCase(h: HashFn, t: Table, key: string, value: nat)
    requires Valid(h, t) && Terminates(h, t, OpIncrease(key, value))
    ensures Refines(h, t, OpIncrease(key, value)) <==> Lands(h, t, OpIncrease(key, value))
  {
    if key in Contents(t.items) {
      IncreaseOfStored(h, t, key, value);
    } else {
      IncreaseOfAbsent(h, t, key, value);
      NewIsReported(h, t, key, value);
      InsertRefinesIff(h, t, key, value);
    }
  }

  /** One operation does what it does to the map exactly when it does not grow the table, or the
      growth does no harm. */
  lemma ApplyRefines(h: HashFn, t: Table, op: Op)
    requires Valid(h, t) && Terminates(h, t, op)
    ensures Refines(h, t, op) <==> Lands(h, t, op)
  {
    match op
    case OpInsert(key, value) => InsertCase(h, t, key, value);
    case OpIncrease(key, value) => IncreaseCase(h, t, key, value);
    case OpRemove(key) => RemoveIsMapRemove(h, t, key);
    case OpGet(key) => GetIsLookup(h, t, key);
    case OpFind(key) => FindIsLookup(h, t, key);
  }

  ghost predicate Runnable(h: HashFn, t: Table, ops: seq<Op>)
    requires Valid(h, t)
    decreases |ops|
  {
    ops == [] ||
    (Ready(h, t, ops[0]) && (ApplyRefines(h, t, ops[0]); Runnable(h, Apply(h, t, ops[0]).0, ops[1..])))
  }

  function Run(h: HashFn, t: Table, ops: seq<Op>): (Table, seq<int>)
    requires Valid(h, t) && Runnable(h, t, ops)
    decreases |ops|
  {
    if ops == [] then (t, [])
    else
      ApplyRefines(h, t, ops[0]);
      var (t', out) := Apply(h, t, ops[0]);
      var (t'', outs) := Run(h, t', ops[1..]);
      (t'', [out] + outs)
  }

  function RunOnMap(m: map<string, nat>, ops: seq<Op>): (map<string, nat>, seq<int>)
    decreases |ops|
  {
    if ops == [] then (m, [])
    else
      var (m', out) := ApplyToMap(m, ops[0]);
      var (m'', outs) := RunOnMap(m', ops[1..]);
      (m'', [out] + outs)
  }

  /** Over any run the table answers as the map does, stands for the map, and counts its bindings. */
  lemma {:induction false} RunRefinesMap(h: HashFn, t: Table, ops: seq<Op>)
    requires Valid(h, t) && Runnable(h, t, ops)
    ensures var (t', outs) := Run(h, t, ops);
      Valid(h, t') && (Contents(t'.items), outs) == RunOnMap(Contents(t.items), ops)
      && t'.count == |RunOnMap(Contents(t.items), ops).0|
    decreases |ops|
  {
    if ops != [] {
      ApplyRefines(h, t, ops[0]);
      RunRefinesMap(h, Apply(h, t, ops[0]).0, ops[1..]);
    }
  }

  // Every operation runs to its end, as long as the table is one.
  ghost predicate RunsOn(h: HashFn, t: Table, ops: seq<Op>)
    requires Valid(h, t)
    decreases |ops|
  {
    ops == [] ||
    (Terminates(h, t, ops[0])
     && (Valid(h, Apply(h, t, ops[0]).0) ==> RunsOn(h, Apply(h, t, ops[0]).0, ops[1..])))
  }

  // Every operation does what it does to the map.
  ghost predicate AllRefine(h: HashFn, t: Table, ops: seq<Op>)
    requires Valid(h, t)
    decreases |ops|
  {
    ops == [] ||
    (Terminates(h, t, ops[0]) && Refines(h, t, ops[0]) && AllRefine(h, Apply(h, t, ops[0]).0, ops[1..]))
  }

  /** Of a run whose operations end, all of them do what they do to the map exactly when every
      growth on the way does no harm. */
  lemma {:induction false} RunRefinesExactly(h: HashFn, t: Table, ops: seq<Op>)
    requires Valid(h, t) && RunsOn(h, t, ops)
    ensures AllRefine(h, t, ops) <==> Runnable(h, t, ops)
    decreases |ops|
  {
    if ops != [] {
      ApplyRefines(h, t, ops[0]);
      if Refines(h, t, ops[0]) {
        RunRefinesExactly(h, Apply(h, t, ops[0]).0, ops[1..]);
      }
    }
  }

  // ---------- the endless insertion ----------

  // The table a key has passed through.
  function Passed(h: HashFn, t: Table, key: string): Table
    requires |t.items| > 0
  {
    Table(t.items[Home(h, key, |t.items|) := Held(TOMBSTONE, 0)], t.count)
  }

  // A key passes through its free home slot and leaves a tombstone there.
  lemma PassThrough(h: HashFn, t: Table, key: string, value: nat, t1: Table)
    requires Valid(h, t) && Storable(key) && !Overloaded(t) && !Underloaded(t)
    requires t.items[Home(h, key, |t.items|)].Null? && t1 == Write(t, Home(h, key, |t.items|), key, value)
    ensures Insertable(h, t, key) && Insert(h, t, key, value).0 == t1
    ensures Valid(h, t1) && Remove(h, t1, key).0 == Passed(h, t, key)
  {
    var p := Home(h, key, |t.items|);
    StoredAtHome(h, t, key, value);
    FindIsLookup(h, t1, key);
    var q := Find(h, t1, key);
    assert q == p by {
      assert Live(t1.items[p]) && Live(t1.items[q]);
    }
    BuryIsRemoval(h, t1, p);
    assert Bury(t1, p) == Passed(h, t, key);
  }

  lemma InsertIsReady(h: HashFn, t: Table, op: Op)
    requires Valid(h, t) && Storable(op.key) && !Overloaded(t) && Insertable(h, t, op.key) && op.OpInsert?
    ensures Ready(h, t, op) && Apply(h, t, op) == Insert(h, t, op.key, op.value)
  {
  }

  lemma RemoveIsReady(h: HashFn, t: Table, op: Op)
    requires Valid(h, t) && Storable(op.key) && op.OpRemove?
    ensures Ready(h, t, op) && Apply(h, t, op) == Remove(h, t, op.key)
  {
  }

  lemma RunOne(h: HashFn, t: Table, op: Op, rest: seq<Op>, t1: Table)
    requires Valid(h, t) && Ready(h, t, op) && t1 == Apply(h, t, op).0
    ensures Valid(h, t1)
    ensures Runnable(h, t1, rest) ==> Runnable(h, t, [op] + rest) && Run(h, t, [op] + rest).0 == Run(h, t1, rest).0
  {
    ApplyRefines(h, t, op);
    assert ([op] + rest)[1..] == rest;
  }

  // The key is inserted and removed again, and rest follows.
  function Passing(key: string, rest: seq<Op>): seq<Op> {
    [OpInsert(key, 1)] + ([OpRemove(key)] + rest)
  }

  lemma RunPassing(h: HashFn, t: Table, key: string, rest: seq<Op>, t2: Table)
    requires Valid(h, t) && Storable(key) && !Overloaded(t) && !Underloaded(t)
    requires t.items[Home(h, key, |t.items|)].Null? && t2 == Passed(h, t, key)
    ensures Valid(h, t2)
    ensures Runnable(h, t2, rest) ==>
      Runnable(h, t, Passing(key, rest)) && Run(h, t, Passing(key, rest)).0 == Run(h, t2, rest).0
  {
    var t1 := Write(t, Home(h, key, |t.items|), key, 1);
    PassThrough(h, t, key, 1, t1);
    InsertIsReady(h, t, OpInsert(key, 1));
    RemoveIsReady(h, t1, OpRemove(key));
    RunOne(h, t, OpInsert(key, 1), [OpRemove(key)] + rest, t1);
    RunOne(h, t1, OpRemove(key), rest, t2);
  }

  // One key kept, three removed, each from a slot of its own.
  function StuckOps(k: string, x: string, y: string, z: string): seq<Op> {
    [OpInsert(k, 1)] + Passing(x, Passing(y, Passing(z, [])))
  }

  ghost predicate FourHomes(h: HashFn, k: string, x: string, y: string, z: string, size: nat) {
    && size == 4 && Storable(k) && Storable(x) && Storable(y) && Storable(z)
    && Home(h, k, size) != Home(h, x, size) && Home(h, k, size) != Home(h, y, size)
    && Home(h, k, size) != Home(h, z, size)
    && Home(h, x, size) != Home(h, y, size) && Home(h, x, size) != Home(h, z, size)
    && Home(h, y, size) != Home(h, z, size)
  }

  // No slot is free and only k is stored.
  ghost predicate Stuck(t: Table, k: string) {
    forall p :: 0 <= p < |t.items| ==> t.items[p].Held? && (Live(t.items[p]) ==> t.items[p].key == k)
  }

  lemma StuckEndsNothing(h: HashFn, t: Table, k: string, key: string)
    requires Valid(h, t) && Stuck(t, k) && !Overloaded(t) && Storable(key) && key != k
    ensures !Insertable(h, t, key)
  {
    LoopEndsIff(h, t, key);
    assert !Stores(t.items, key);
  }

  function StuckTable(h: HashFn, k: string, x: string, y: string, z: string, size: nat): Table
    requires size > 0
  {
    Passed(h, Passed(h, Passed(h, OneOf(h, k, size), x), y), z)
  }

  lemma FourPassed(h: HashFn, k: string, x: string, y: string, z: string, size: nat)
    requires FourHomes(h, k, x, y, z, size)
    ensures var t := StuckTable(h, k, x, y, z, size);
      |t.items| == size && t.count == 1 && Stuck(t, k) && t.items[Home(h, k, size)] == Held(k, 1)
  {
  }

  // At each stage the slot of the next key is free.
  lemma StagesAreFree(h: HashFn, k: string, x: string, y: string, z: string, size: nat)
    requires FourHomes(h, k, x, y, z, size)
    ensures var t1 := OneOf(h, k, size);
      var t2 := Passed(h, t1, x);
      var t3 := Passed(h, t2, y);
      && |t1.items| == |t2.items| == |t3.items| == size && t1.count == t2.count == t3.count == 1
      && t1.items[Home(h, x, size)].Null? && t2.items[Home(h, y, size)].Null? && t3.items[Home(h, z, size)].Null?
  {
  }

  // One key among four slots neither grows nor shrinks the table.
  lemma RunStage(h: HashFn, t: Table, key: string, rest: seq<Op>, t2: Table)
    requires Valid(h, t) && Storable(key) && |t.items| == 4 && t.count == 1
    requires t.items[Home(h, key, |t.items|)].Null? && t2 == Passed(h, t, key)
    ensures Valid(h, t2)
    ensures Runnable(h, t2, rest) ==>
      Runnable(h, t, Passing(key, rest)) && Run(h, t, Passing(key, rest)).0 == Run(h, t2, rest).0
  {
    RunPassing(h, t, key, rest, t2);
  }

  lemma RunStages(h: HashFn, t1: Table, t2: Table, t3: Table, t4: Table, x: string, y: string, z: string)
    requires Valid(h, t1) && |t1.items| == |t2.items| == |t3.items| == 4 && t1.count == t2.count == t3.count == 1
    requires Storable(x) && Storable(y) && Storable(z) && t2 == Passed(h, t1, x)
    requires t3 == Passed(h, t2, y) && t4 == Passed(h, t3, z)
    requires t1.items[Home(h, x, 4)].Null? && t2.items[Home(h, y, 4)].Null? && t3.items[Home(h, z, 4)].Null?
    ensures Valid(h, t4) && Runnable(h, t1, Passing(x, Passing(y, Passing(z, []))))
    ensures Run(h, t1, Passing(x, Passing(y, Passing(z, [])))).0 == t4
  {
    RunStage(h, t1, x, Passing(y, Passing(z, [])), t2);
    RunStage(h, t2, y, Passing(z, []), t3);
    RunStage(h, t3, z, [], t4);
  }

  lemma StuckIsReached(h: HashFn, k: string, x: string, y: string, z: string, size: nat)
    requires FourHomes(h, k, x, y, z, size) && IsTableSize(size) && Valid(h, EmptyTable(size))
    ensures Runnable(h, EmptyTable(size), StuckOps(k, x, y, z))
    ensures Run(h, EmptyTable(size), StuckOps(k, x, y, z)).0 == StuckTable(h, k, x, y, z, size)
    ensures Valid(h, StuckTable(h, k, x, y, z, size))
  {
    var t1 := OneOf(h, k, size);
    var t2 := Passed(h, t1, x);
    var t3 := Passed(h, t2, y);
    FirstAtHome(h, k, size);
    StagesAreFree(h, k, x, y, z, size);
    RunStages(h, t1, t2, t3, Passed(h, t3, z), x, y, z);
    InsertIsReady(h, EmptyTable(size), OpInsert(k, 1));
    RunOne(h, EmptyTable(size), OpInsert(k, 1), Passing(x, Passing(y, Passing(z, []))), t1);
  }

  /** Inserting and removing three keys beside a fourth leaves a new table of four slots with one key
      and no free slot, too full to shrink and too empty to grow: no insertion of another key into it
      ends. */
  lemma EndlessInsertion(h: HashFn, k: string, x: string, y: string, z: string, size: nat)
    requires FourHomes(h, k, x, y, z, size)
    ensures IsTableSize(size) && Valid(h, EmptyTable(size)) && Runnable(h, EmptyTable(size), StuckOps(k, x, y, z))
    ensures var t := Run(h, EmptyTable(size), StuckOps(k, x, y, z)).0;
      && Valid(h, t) && t.count == 1 && !Overloaded(t) && !Underloaded(t)
      && forall key :: Storable(key) && key != k ==> !Insertable(h, t, key)
  {
    assert Pow2(2) == size;
    EmptyTableIsValid(h, size);
    StuckIsReached(h, k, x, y, z, size);
    FourPassed(h, k, x, y, z, size);
    var t := StuckTable(h, k, x, y, z, size);
    forall key | Storable(key) && key != k ensures !Insertable(h, t, key) {
      StuckEndsNothing(h, t, k, key);
    }
  }

  /** With the hash of the program four letters do it. */
  lemma LettersGetStuck(a: string, b: string, c: string, e: string, size: nat)
    requires a == "a" && b == "b" && c == "c" && e == "e" && size == 4
    ensures FourHomes(Jenkins, a, b, c, e, size)
  {
    HashOfA(a);
    HashOfB(b);
    HashOfC(c);
    HashOfE(e);
  }
}
