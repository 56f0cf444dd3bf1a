/**
 Closing up the arrays of polled sockets in place, with two moving indices.
 */
module PollArray {

  const CLOSED: int := -1

  // A polled socket with its address and the length of that address.
  datatype Entry = Entry(fd: int, addr: int, len: int)

  predicate IsOpen(e: Entry) {
    e.fd != CLOSED
  }

  ghost function Of(e: Entry): multiset<Entry> {
    if IsOpen(e) then multiset{e} else multiset{}
  }

  // The open ones among the first n entries, each as often as it occurs.
  ghost function OpenBelow(es: seq<Entry>, n: nat): multiset<Entry>
    requires n <= |es|
  {
    if n == 0 then multiset{} else OpenBelow(es, n - 1) + Of(es[n - 1])
  }

  ghost function Open(es: seq<Entry>): multiset<Entry> {
    OpenBelow(es, |es|)
  }

  function Hit(e: Entry, x: Entry): nat {
    if IsOpen(e) && e == x then 1 else 0
  }

  // How often x occurs open among the first n entries.
  function Hits(es: seq<Entry>, x: Entry, n: nat): nat
    requires n <= |es|
  {
    if n == 0 then 0 else Hits(es, x, n - 1) + Hit(es[n - 1], x)
  }

  lemma {:induction false} OpenIsHits(es: seq<Entry>, x: Entry, n: nat)
    requires n <= |es|
    ensures OpenBelow(es, n)[x] == Hits(es, x, n)
    decreases n
  {
    if n > 0 {
      OpenIsHits(es, x, n - 1);
    }
  }

  // es and es' differ in slot i at most.
  lemma {:induction false} HitsUpdated(es: seq<Entry>, es': seq<Entry>, i: nat, x: Entry, n: nat)
    requires i < |es| == |es'| && n <= |es|
    requires forall j :: 0 <= j < |es| && j != i ==> es'[j] == es[j]
    ensures Hits(es', x, n) + (if i < n then Hit(es[i], x) else 0) ==
      Hits(es, x, n) + (if i < n then Hit(es'[i], x) else 0)
    decreases n
  {
    if n > 0 {
      HitsUpdated(es, es', i, x, n - 1);
    }
  }

  // Entry j moves into the closed slot i, and its own slot is closed.
  function Moved(es: seq<Entry>, i: nat, j: nat): seq<Entry>
    requires i < j < |es|
  {
    es[i := es[j]][j := es[j].(fd := CLOSED)]
  }

  /** A move neither loses nor doubles an open entry. */
  lemma MoveKeepsOpen(es: seq<Entry>, i: nat, j: nat)
    requires i < j < |es| && !IsOpen(es[i])
    ensures Open(Moved(es, i, j)) == Open(es)
  {
    forall x ensures Open(Moved(es, i, j))[x] == Open(es)[x] {
      HitsUpdated(es, es[i := es[j]], i, x, |es|);
      HitsUpdated(es[i := es[j]], Moved(es, i, j), j, x, |es|);
      OpenIsHits(es, x, |es|);
      OpenIsHits(Moved(es, i, j), x, |es|);
    }
  }

  // The first n entries are open and the others closed.
  ghost predicate ClosedUp(es: seq<Entry>, n: nat) {
    n <= |es| && forall i :: 0 <= i < |es| ==> (IsOpen(es[i]) <==> i < n)
  }

  lemma {:induction false} ClosedUpCount(es: seq<Entry>, n: nat, m: nat)
    requires ClosedUp(es, n) && m <= |es|
    ensures |OpenBelow(es, m)| == if m < n then m else n
    decreases m
  {
    if m > 0 {
      ClosedUpCount(es, n, m - 1);
    }
  }

  /** When the open entries stay the same, the number of slots in use is how many were open. */
  lemma InUseIsOpen(before: seq<Entry>, after: seq<Entry>, n: nat)
    requires ClosedUp(after, n) && Open(after) == Open(before)
    ensures n == |Open(before)|
  {
    ClosedUpCount(after, n, |after|);
  }

  // ---------- what the inclusive range keeps ----------

  // The arrays after closing up slots 0 to current, with nb slots in use. Those above are as before.
  ghost predicate Compressed(before: seq<Entry>, after: seq<Entry>, current: nat, nb: nat) {
    && current < |before| == |after| && nb <= current + 1
    && (forall i :: 0 <= i <= current ==> (IsOpen(after[i]) <==> i < nb))
    && OpenBelow(after, current + 1) == OpenBelow(before, current + 1)
    && forall i :: current < i < |before| ==> after[i] == before[i]
  }

  lemma {:induction false} SamePrefix(a: seq<Entry>, b: seq<Entry>, n: nat)
    requires n <= |a| && n <= |b| && forall i :: 0 <= i < n ==> a[i] == b[i]
    ensures OpenBelow(a, n) == OpenBelow(b, n)
    decreases n
  {
    if n > 0 {
      SamePrefix(a, b, n - 1);
    }
  }

  lemma {:induction false} ClosedAddNothing(es: seq<Entry>, n: nat, m: nat)
    requires n <= m <= |es| && forall i :: n <= i < m ==> !IsOpen(es[i])
    ensures OpenBelow(es, m) == OpenBelow(es, n)
    decreases m
  {
    if n < m {
      ClosedAddNothing(es, n, m - 1);
    }
  }

  lemma {:induction false} HitsGrow(es: seq<Entry>, x: Entry, n: nat, m: nat)
    requires n <= m <= |es|
    ensures Hits(es, x, n) <= Hits(es, x, m)
    decreases m
  {
    if n < m {
      HitsGrow(es, x, n, m - 1);
    }
  }

  lemma HitsRise(es: seq<Entry>, i: nat, n: nat, m: nat)
    requires n <= i < m <= |es| && IsOpen(es[i])
    ensures Hits(es, es[i], n) < Hits(es, es[i], m)
  {
    HitsGrow(es, es[i], n, i);
    HitsGrow(es, es[i], i + 1, m);
  }

  lemma OpenGrows(es: seq<Entry>, n: nat, m: nat)
    requires n <= m <= |es|
    ensures OpenBelow(es, n) <= OpenBelow(es, m)
  {
    forall x: Entry ensures OpenBelow(es, n)[x] <= OpenBelow(es, m)[x] {
      OpenIsHits(es, x, n);
      OpenIsHits(es, x, m);
      HitsGrow(es, x, n, m);
    }
  }

  lemma InUseAreOpen(before: seq<Entry>, after: seq<Entry>, current: nat, nb: nat)
    requires Compressed(before, after, current, nb)
    ensures OpenBelow(after, nb) == OpenBelow(before, current + 1) && |OpenBelow(before, current + 1)| == nb
  {
    ClosedAddNothing(after, nb, current + 1);
    var range := after[..current + 1];
    SamePrefix(after, range, current + 1);
    ClosedUpCount(range, nb, current + 1);
  }

  /** The range ends one past the sockets that were polled. The slots in use are as many as the polled
      sockets still open exactly when that slot is closed; otherwise there is one more. */
  lemma SlotPastTheEnd(before: seq<Entry>, after: seq<Entry>, current: nat, nb: nat)
    requires Compressed(before, after, current, nb)
    ensures nb == |OpenBelow(before, current)| <==> !IsOpen(before[current])
    ensures IsOpen(before[current]) ==> nb == |OpenBelow(before, current)| + 1
  {
    InUseAreOpen(before, after, current, nb);
    assert OpenBelow(before, current + 1) == OpenBelow(before, current) + Of(before[current]);
  }

  // No slot above current and below m is open.
  ghost predicate NoneAbove(es: seq<Entry>, current: nat, m: nat)
    requires m <= |es|
  {
    forall i :: current < i < m ==> !IsOpen(es[i])
  }

  lemma NoneAboveAddsNothing(es: seq<Entry>, current: nat, m: nat)
    requires current < |es| && current <= m <= |es| && NoneAbove(es, current, m)
    ensures OpenBelow(es, m) <= OpenBelow(es, current + 1)
  {
    if m <= current {
      OpenGrows(es, m, current + 1);
    } else {
      ClosedAddNothing(es, current + 1, m);
    }
  }

  lemma SomeAboveAddsOne(es: seq<Entry>, n: nat, m: nat, i: nat)
    requires n <= i < m <= |es| && IsOpen(es[i])
    ensures OpenBelow(es, n)[es[i]] < OpenBelow(es, m)[es[i]]
  {
    OpenIsHits(es, es[i], n);
    OpenIsHits(es, es[i], m);
    HitsRise(es, i, n, m);
  }

  lemma MoreIsNotWithin(a: multiset<Entry>, b: multiset<Entry>, x: Entry)
    requires b[x] < a[x]
    ensures !(a <= b)
  {
  }

  lemma SomeAboveIsMore(es: seq<Entry>, current: nat, m: nat)
    requires current < |es| && current <= m <= |es| && !NoneAbove(es, current, m)
    ensures !(OpenBelow(es, m) <= OpenBelow(es, current + 1))
  {
    var i :| current < i < m && IsOpen(es[i]);
    SomeAboveAddsOne(es, current + 1, m, i);
    MoreIsNotWithin(OpenBelow(es, m), OpenBelow(es, current + 1), es[i]);
  }

  lemma WithinRangeIff(es: seq<Entry>, current: nat, m: nat)
    requires current < |es| && current <= m <= |es|
    ensures OpenBelow(es, m) <= OpenBelow(es, current + 1) <==> NoneAbove(es, current, m)
  {
    if NoneAbove(es, current, m) {
      NoneAboveAddsNothing(es, current, m);
    } else {
      SomeAboveIsMore(es, current, m);
    }
  }

  // Every open entry below m before is in use after.
  ghost predicate AllKept(before: seq<Entry>, after: seq<Entry>, m: nat, nb: nat)
    requires m <= |before| && nb <= |after|
  {
    OpenBelow(before, m) <= OpenBelow(after, nb)
  }

  /** Of the slots below m, where m counts sockets accepted in the same turn too, every open entry
      stays in use exactly when none was accepted into a slot above current. */
  lemma KeptIff(before: seq<Entry>, after: seq<Entry>, current: nat, nb: nat, m: nat)
    requires Compressed(before, after, current, nb) && current <= m <= |before|
    ensures AllKept(before, after, m, nb) <==> NoneAbove(before, current, m)
  {
    InUseAreOpen(before, after, current, nb);
    WithinRangeIff(before, current, m);
  }

  // The entries of a row of descriptors.
  function Row(fds: seq<int>): (es: seq<Entry>)
    ensures |es| == |fds| && forall i :: 0 <= i < |fds| ==> es[i] == Entry(fds[i], 0, 0)
  {
    seq(|fds|, i requires 0 <= i < |fds| => Entry(fds[i], 0, 0))
  }

  /** As it happens: of four polled sockets one has closed and three stay, but the slot after them
      was never used and holds descriptor 0, so four slots count as in use. */
  lemma UnusedSlotCounts(before: seq<Entry>, after: seq<Entry>, current: nat, nb: nat)
    requires before == Row([5, 0, 7, -1, 0]) && current == 4 && Compressed(before, after, current, nb)
    ensures nb == 4 && |OpenBelow(before, current)| == 3
  {
    SlotPastTheEnd(before, after, current, nb);
    InUseAreOpen(before, after, current, nb);
    CountOfRow(before, current);
  }

  lemma CountOfRow(es: seq<Entry>, n: nat)
    requires n == 4 <= |es| && IsOpen(es[0]) && IsOpen(es[1]) && IsOpen(es[2]) && !IsOpen(es[3])
    ensures |OpenBelow(es, n)| == 3
  {
    assert OpenBelow(es, n - 3) == OpenBelow(es, 0) + Of(es[0]);
    assert OpenBelow(es, n - 2) == OpenBelow(es, n - 3) + Of(es[1]);
    assert OpenBelow(es, n - 1) == OpenBelow(es, n - 2) + Of(es[2]);
    assert OpenBelow(es, n) == OpenBelow(es, n - 1) + Of(es[3]);
  }

  /** And two connections accepted in a turn in which a socket closes: the second is no longer polled. */
  lemma AcceptedIsDropped(before: seq<Entry>, after: seq<Entry>, current: nat, nb: nat)
    requires before == Row([5, 0, 7, -1, 8, 9]) && current == 4 && Compressed(before, after, current, nb)
    ensures nb == 4 && IsOpen(after[5]) && !AllKept(before, after, 6, nb)
  {
    SlotPastTheEnd(before, after, current, nb);
    InUseAreOpen(before, after, current, nb);
    CountOfRow(before, current);
    KeptIff(before, after, current, nb, 6);
  }

  // The sweep has closed up the slots below i; those above last are closed.
  ghost predicate Swept(before: seq<Entry>, es: seq<Entry>, i: nat, last: nat) {
    && |es| == |before| && last < |es| && i <= last + 1
    && Open(es) == Open(before)
    && (forall j :: 0 <= j < i ==> IsOpen(es[j]))
    && (forall j :: last < j < |es| ==> !IsOpen(es[j]))
    && (last > 0 ==> IsOpen(es[last]))
    && (forall j :: 0 <= j <= last && (i <= j || IsOpen(before[j])) ==> es[j] == before[j])
  }

  // One turn of the sweep at a closed slot: the last open entry moves there.
  lemma SweptMove(before: seq<Entry>, es: seq<Entry>, i: nat, last: nat, last': nat)
    requires Swept(before, es, i, last) && i < last && !IsOpen(es[i])
    requires last' <= last && (last' > 0 ==> IsOpen(Moved(es, i, last)[last']))
    requires forall j :: last' < j <= last ==> !IsOpen(Moved(es, i, last)[j])
    ensures Swept(before, Moved(es, i, last), i + 1, last')
  {
    MoveKeepsOpen(es, i, last);
    assert IsOpen(Moved(es, i, last)[i]) && !IsOpen(Moved(es, i, last)[last]);
  }

  lemma SweptOpen(before: seq<Entry>, es: seq<Entry>, i: nat, last: nat)
    requires Swept(before, es, i, last) && i < last && IsOpen(es[i])
    ensures Swept(before, es, i + 1, last)
  {
  }

  // The sweep at its end.
  lemma SweptEnd(before: seq<Entry>, es: seq<Entry>, i: nat, last: nat)
    requires Swept(before, es, i, last) && i >= last
    ensures ClosedUp(es, if IsOpen(es[0]) then last + 1 else 0)
    ensures |Open(before)| == if IsOpen(es[0]) then last + 1 else 0
  {
    InUseIsOpen(before, es, if IsOpen(es[0]) then last + 1 else 0);
  }

  // src says where the entries of the first slots come from: an open entry stays, and the slots that were
  // closed have got open entries from above last, each from a lower slot than the one before.
  ghost predicate Sources(before: seq<Entry>, es: seq<Entry>, src: seq<nat>, last: int) {
    && |src| <= |es| == |before|
    && (forall j :: 0 <= j < |src| ==> src[j] < |before| && es[j] == before[src[j]] && IsOpen(es[j]))
    && (forall j :: 0 <= j < |src| ==> if IsOpen(before[j]) then src[j] == j else src[j] > last)
    && (forall j, k :: 0 <= j < k < |src| && !IsOpen(before[j]) && !IsOpen(before[k]) ==> src[j] > src[k])
  }

  lemma SourcesMove(before: seq<Entry>, es: seq<Entry>, i: nat, last: nat, last': nat, src: seq<nat>)
    requires Swept(before, es, i, last) && i < last && !IsOpen(es[i]) && last' < last
    requires |src| == i && Sources(before, es, src, last)
    ensures Sources(before, Moved(es, i, last), src + [last], last')
  {
    assert es[i] == before[i] && es[last] == before[last];
  }

  lemma SourcesStay(before: seq<Entry>, es: seq<Entry>, i: nat, last: nat, src: seq<nat>)
    requires Swept(before, es, i, last) && i <= last && IsOpen(es[i]) && |src| == i && Sources(before, es, src, last)
    ensures Sources(before, es, src + [i], last)
  {
    assert es[i] == before[i];
  }

  // The first n slots have been filled from the top: the lowest closed slot has got the highest open entry,
  // the next one the next, and every open entry among them has stayed.
  ghost predicate FilledFromTop(before: seq<Entry>, after: seq<Entry>, n: nat) {
    exists src: seq<nat> :: |src| == n && Sources(before, after, src, n - 1)
  }

  lemma SweptFilled(before: seq<Entry>, es: seq<Entry>, i: nat, last: nat, src: seq<nat>)
    requires Swept(before, es, i, last) && i >= last && |src| == i && Sources(before, es, src, last)
    ensures FilledFromTop(before, es, if IsOpen(es[0]) then last + 1 else 0)
  {
    if !IsOpen(es[0]) {
      assert Sources(before, es, [], -1);
    } else if i == last {
      SourcesStay(before, es, i, last, src);
      assert Sources(before, es, src + [i], last);
    }
  }

  lemma FilledFurther(before: seq<Entry>, after: seq<Entry>, rest: seq<Entry>, n: nat)
    requires FilledFromTop(before, after, n)
    ensures FilledFromTop(before + rest, after + rest, n)
  {
    var src: seq<nat> :| |src| == n && Sources(before, after, src, n - 1);
    assert Sources(before + rest, after + rest, src, n - 1);
  }

  // The entries below n that were open are where they were.
  ghost predicate OpenStay(before: seq<Entry>, es: seq<Entry>, n: nat)
    requires n <= |before| == |es|
  {
    forall i :: 0 <= i < n && IsOpen(before[i]) ==> es[i] == before[i]
  }

  class TcpConnection {
    const fds: array<int>
    const addrs: array<int>
    const lens: array<int>
    var nb: nat
    var endConnection: bool

    ghost predicate Valid() {
      fds.Length == addrs.Length == lens.Length && fds != addrs && fds != lens && addrs != lens
    }

    // The entries of slots below n.
    ghost function Entries(n: nat): (es: seq<Entry>)
      requires Valid() && n <= fds.Length
      reads fds, addrs, lens
      ensures |es| == n && forall i :: 0 <= i < n ==> es[i] == Entry(fds[i], addrs[i], lens[i])
    {
      seq(n, i requires 0 <= i < n reads fds, addrs, lens => Entry(fds[i], addrs[i], lens[i]))
    }

    // The entries of the slots from n on.
    ghost function Rest(n: nat): (es: seq<Entry>)
      requires Valid() && n <= fds.Length
      reads fds, addrs, lens
      ensures |es| == fds.Length - n
      ensures forall i :: 0 <= i < |es| ==> es[i] == Entry(fds[n + i], addrs[n + i], lens[n + i])
    {
      seq(fds.Length - n, i requires 0 <= i < fds.Length - n reads fds, addrs, lens =>
        Entry(fds[n + i], addrs[n + i], lens[n + i]))
    }

    // The last open slot at or below start, or 0.
    method LastOpen(start: nat) returns (last: nat)
      requires start < fds.Length
      ensures last <= start && (last > 0 ==> fds[last] != CLOSED)
      ensures forall j :: last < j <= start ==> fds[j] == CLOSED
    {
      last := start;
      while last > 0 && fds[last] == CLOSED
        invariant last <= start
        invariant forall j :: last < j <= start ==> fds[j] == CLOSED
      {
        last := last - 1;
      }
    }

    method Move(i: nat, j: nat, ghost n: nat)
      requires Valid() && i < j < n <= fds.Length
      modifies fds, addrs, lens
      ensures Entries(n) == Moved(old(Entries(n)), i, j)
      ensures Rest(n) == old(Rest(n))
    {
      fds[i] := fds[j];
      addrs[i] := addrs[j];
      lens[i] := lens[j];
      fds[j] := CLOSED;
      assert Entries(n) == Moved(old(Entries(n)), i, j);
    }

    // One turn of the sweep at a closed slot.
    method FillSlot(i: nat, last: nat, ghost n: nat, ghost before: seq<Entry>) returns (last': nat)
      requires Valid() && n <= fds.Length && Swept(before, Entries(n), i, last) && i < last && fds[i] == CLOSED
      modifies fds, addrs, lens
      ensures last' < last && Swept(before, Entries(n), i + 1, last') && Rest(n) == old(Rest(n))
      ensures Entries(n) == Moved(old(Entries(n)), i, last)
    {
      ghost var es := Entries(n);
      Move(i, last, n);
      last' := LastOpen(last);
      ghost var es' := Entries(n);
      assert forall j :: last' < j <= last ==> !IsOpen(es'[j]);
      SweptMove(before, es, i, last, last');
    }

    // The two indices meet; last is the last slot in use.
    method Sweep(current: nat) returns (last: nat, ghost end: nat, ghost src: seq<nat>)
      requires Valid() && current < fds.Length
      modifies fds, addrs, lens
      ensures last <= end == |src| && Swept(old(Entries(current + 1)), Entries(current + 1), end, last)
      ensures Sources(old(Entries(current + 1)), Entries(current + 1), src, last)
      ensures Rest(current + 1) == old(Rest(current + 1))
    {
      ghost var n := current + 1;
      ghost var before := Entries(n);
      last := LastOpen(current);
      var i := 0;
      src := [];
      while i < last
        invariant Swept(before, Entries(n), i, last) && Rest(n) == old(Rest(n))
        invariant |src| == i && Sources(before, Entries(n), src, last)
      {
        ghost var es := Entries(n);
        if fds[i] == CLOSED {
          ghost var top := last;
          last := FillSlot(i, last, n, before);
          SourcesMove(before, es, i, top, last, src);
          src := src + [top];
        } else {
          SweptOpen(before, es, i, last);
          SourcesStay(before, es, i, last, src);
          src := src + [i];
        }
        i := i + 1;
      }
      end := i;
    }

    // The entries of all slots.
    ghost function All(): (es: seq<Entry>)
      requires Valid()
      reads fds, addrs, lens
    {
      Entries(fds.Length)
    }

    lemma AllIsRangeAndRest(n: nat)
      requires Valid() && n <= fds.Length
      ensures All() == Entries(n) + Rest(n)
    {
    }

    // The range runs to current inclusive.
    method CloseUp(current: nat)
      requires Valid() && current < fds.Length
      modifies this, fds, addrs, lens
      ensures ClosedUp(Entries(current + 1), nb)
      ensures Open(Entries(current + 1)) == Open(old(Entries(current + 1)))
      ensures OpenStay(old(Entries(current + 1)), Entries(current + 1), nb)
      ensures FilledFromTop(old(Entries(current + 1)), Entries(current + 1), nb)
      ensures endConnection == (old(endConnection) || nb == 0)
      ensures Rest(current + 1) == old(Rest(current + 1))
    {
      ghost var n, before := current + 1, Entries(current + 1);
      ghost var end: nat;
      ghost var src: seq<nat>;
      var last: nat;
      last, end, src := Sweep(current);
      ghost var es := Entries(n);
      SweptFilled(before, es, end, last, src);
      SweptEnd(before, es, end, last);
      assert IsOpen(es[0]) <==> fds[0] != CLOSED;
      assert OpenStay(before, es, last + 1);
      if fds[0] == CLOSED {
        nb := 0;
        endConnection := true;
      } else {
        nb := last + 1;
      }
      assert Entries(n) == es;
    }

    method CompressInside(current: nat)
      requires Valid() && current < fds.Length
      modifies this, fds, addrs, lens
      ensures Compressed(old(All()), All(), current, nb) && OpenStay(old(All()), All(), nb)
      ensures FilledFromTop(old(All()), All(), nb)
      ensures endConnection == (old(endConnection) || nb == 0)
    {
      ghost var n, before := current + 1, All();
      ghost var range := Entries(n);
      AllIsRangeAndRest(n);
      CloseUp(current);
      AllIsRangeAndRest(n);
      FilledFurther(range, Entries(n), Rest(n), nb);
      CompressedFrom(before, All(), range, Entries(n), Rest(n), current, nb);
    }

    // ok is false where the program reads past its arrays: with every slot in use the slot past the
    // polled ones is not there.
    method CompressPollSocketArray(current: nat) returns (ok: bool)
      requires Valid() && current <= fds.Length
      modifies this, fds, addrs, lens
      ensures ok <==> current < fds.Length
      ensures !ok ==> All() == old(All()) && nb == old(nb) && endConnection == old(endConnection)
      ensures ok ==> Compressed(old(All()), All(), current, nb) && OpenStay(old(All()), All(), nb)
      ensures ok ==> FilledFromTop(old(All()), All(), nb)
      ensures ok ==> endConnection == (old(endConnection) || nb == 0)
      ensures ok ==> (nb == |OpenBelow(old(All()), current)| <==> old(fds[..])[current] == CLOSED)
      ensures ok && current <= old(nb) <= fds.Length ==>
        (AllKept(old(All()), All(), old(nb), nb) <==> NoneAbove(old(All()), current, old(nb)))
    {
      if current == fds.Length {
        return false;
      }
      ghost var before, was := All(), nb;
      assert before[current].fd == fds[..][current];
      CompressInside(current);
      SlotPastTheEnd(before, All(), current, nb);
      if current <= was <= fds.Length {
        KeptIff(before, All(), current, nb, was);
      }
      return true;
    }
  }

  lemma CompressedFrom(before: seq<Entry>, after: seq<Entry>, range: seq<Entry>, range': seq<Entry>,
                       rest: seq<Entry>, current: nat, nb: nat)
    requires before == range + rest && after == range' + rest && |range| == |range'| == current + 1
    requires ClosedUp(range', nb) && Open(range') == Open(range) && OpenStay(range, range', nb)
    ensures Compressed(before, after, current, nb) && OpenStay(before, after, nb)
  {
    SamePrefix(before, range, current + 1);
    SamePrefix(after, range', current + 1);
  }
}
