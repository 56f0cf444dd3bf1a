/**
 What each program puts on the wire, field by field and in the numbers of the protocol: lines and requests
 of a client, what the proxy makes of them, and the answers of the server.
 */
module Wire {
  import opened Bits
  import opened ChatMessages
  import opened MessageCoding
  import opened Proxy
  import C = ClientTable
  import R = Registry

  // ---------- the client ----------

  // The least slot that is free.
  ghost predicate LeastFree(slots: seq<Message>, i: int) {
    0 <= i < |slots| && slots[i].kind == -1 && forall j :: 0 <= j < i ==> slots[j].kind != -1
  }

  // The slot a line takes, and the counter of retransmissions it finds there: the least free one, or in a
  // table as long as the counter of messages the first of those that double it.
  ghost predicate TakesSlot(c: C.Client, l: C.Line, m: Message, c': C.Client)
    requires |l.junk| == |c.slots| > 0
  {
    if c.nb == |c.slots| then
      m.id == |c.slots| && m.tries == l.junk[0] && |c'.slots| == 2 * |c.slots|
      && forall i :: |c.slots| < i < |c'.slots| ==>
           c'.slots[i].kind == -1 && c'.slots[i].tries == l.junk[i - |c.slots|]
    else LeastFree(c.slots, m.id) && m.tries == c.slots[m.id].tries && |c'.slots| == |c.slots|
  }

  /** A line goes out under the name of its client, on the channel the client is on, from the least free slot
      of its table, where it waits; the table doubles when as many messages as it has slots were sent. */
  lemma LineOnWire(c: C.Client, l: C.Line)
    requires C.LineFits(c, l) && c.pseudo != "" && c.connected && C.OnStdin(c, l).Done?
    ensures |c.slots| > 0 && |C.OnStdin(c, l).out| == 1
    ensures var c', m := C.OnStdin(c, l).client, C.OnStdin(c, l).out[0];
      && m.kind == 0 && m.pseudo == c.pseudo && m.flag == c.flag && m.socket == -1
      && m.data == l.data && m.control == l.control
      && TakesSlot(c, l, m, c')
      && m.id < |c'.slots| && c'.slots[m.id] == m
      && (forall i :: 0 <= i < |c.slots| && i != m.id ==> c'.slots[i] == c.slots[i])
      && c' == c.(slots := c'.slots, nb := c.nb + 1)
  {
    assert C.OnStdin(c, l) == C.Send(c, l.data, l.control, l.junk, l.serial);
    var c1 := C.Roomy(c, l.junk);
    var id := C.NextId(c, l.junk);
    assert c.nb == |c.slots| > 0 ==> c1.slots[|c.slots|] == C.NewSlot(l.junk[0]);
  }

  /** It ends the program exactly when no slot is free and the table does not double. */
  lemma LineFaultsIff(c: C.Client, l: C.Line)
    requires C.LineFits(c, l) && c.pseudo != "" && c.connected
    ensures C.OnStdin(c, l) == C.Fault <==>
      |c.slots| == 0 || (c.nb != |c.slots| && forall i :: 0 <= i < |c.slots| ==> c.slots[i].kind != -1)
  {
    var c1 := C.Roomy(c, l.junk);
    assert c.nb == |c.slots| > 0 ==> c1.slots[|c.slots|] == C.NewSlot(l.junk[0]);
  }

  /** A request to log in bears the name typed and the code of the client, as message 0 of its table. */
  lemma RequestOnWire(c: C.Client, l: C.Line)
    requires C.LineFits(c, l) && c.pseudo == "" && !c.waiting && |l.text| >= 3 && |c.slots| > 0
    ensures C.OnStdin(c, l).Done? && |C.OnStdin(c, l).out| == 1
    ensures var c', m := C.OnStdin(c, l).client, C.OnStdin(c, l).out[0];
      && m.kind == 2 && m.id == 0 && m.pseudo == l.text && m.data == l.code
      && c' == c.(slots := c.slots[0 := m], nb := c.nb + 1, pseudo := l.text, waiting := true)
  {
  }

  /** A client puts something on the wire exactly for a name of three letters or more, typed while it has
      none and waits for none, and for a line, typed while it is connected. */
  lemma TypedGoesOutIff(c: C.Client, l: C.Line)
    requires C.LineFits(c, l) && C.OnStdin(c, l).Done?
    ensures C.OnStdin(c, l).out != [] <==>
      if c.pseudo == "" then !c.waiting && |l.text| >= 3 else c.connected
    ensures C.OnStdin(c, l).out == [] ==> C.OnStdin(c, l).client == c
  {
  }

  /** A refused client is as it was before its request, but for the message it counted and, where the refusal
      names an occupied slot, that slot; so it may ask again. */
  lemma RefusedMayAskAgain(c: C.Client, m: Message)
    requires c.waiting && m.kind == 4 && C.OnMsg(c, m).Done?
    ensures var c' := C.OnMsg(c, m).client;
      && C.OnMsg(c, m).out == [] && c'.pseudo == "" && !c'.waiting
      && c' == c.(slots := c'.slots, pseudo := "", waiting := false) && |c'.slots| == |c.slots|
      && (forall i :: 0 <= i < |c.slots| && !(i == m.id < c.nb) ==> c'.slots[i] == c.slots[i])
      && (0 <= m.id < c.nb ==> m.id < |c.slots| && c'.slots[m.id].kind == -1)
      && (0 <= m.id < c.nb && c.slots[m.id].kind != -1 ==> c'.slots[m.id].tries == 0)
  {
  }

  /** An acknowledgment that names an occupied slot of a connected client frees it, leaving no count of
      retransmissions behind, or has the message in it sent again as it was, with the count it brings. */
  lemma AckReceived(c: C.Client, m: Message)
    requires !c.waiting && c.connected && (m.kind == 5 || m.kind == 6)
    requires 0 <= m.id <= c.nb && m.id < |c.slots| && c.slots[m.id].kind != -1
    ensures C.OnMsg(c, m).Done?
    ensures var c', out := C.OnMsg(c, m).client, C.OnMsg(c, m).out;
      && |c'.slots| == |c.slots| && c' == c.(slots := c'.slots)
      && (forall i :: 0 <= i < |c.slots| && i != m.id ==> c'.slots[i] == c.slots[i])
      && if m.kind == 5 then out == [] && c'.slots[m.id].kind == -1 && c'.slots[m.id].tries == 0
         else out == [c'.slots[m.id]] && c'.slots[m.id] == c.slots[m.id].(tries := m.tries)
  {
  }

  // ---------- the proxy ----------

  /** The noise reaches lines of ten bytes and more; a shorter line that is not empty passes as it is. */
  lemma LineThroughProxy(m: Message, fl: seq<Flips>)
    requires m.kind == 0 && m.data != [] && (|m.data| >= 10 ==> |fl| == |m.data|)
    ensures OnClientReceived(m, fl).Some?
    ensures var r := OnClientReceived(m, fl).value;
      && r.(data := m.data, control := m.control) == m && |r.data| == |m.data|
      && forall i :: 0 <= i < |m.data| ==>
           && r.data[i] == (if |m.data| >= 10 then m.data[i] ^ fl[i].data else m.data[i])
           && r.control[i] == (if |m.data| >= 10 then m.control[i] ^ fl[i].check else m.control[i])
  {
  }

  /** Of the messages without a body the proxy passes acknowledgments, requests, confirmations and notices of
      who comes and goes, both ways, and no other kind. */
  lemma EmptyThroughProxy(m: Message, fds: nat)
    requires m.data == [] && 0 <= m.socket < fds
    ensures OnClientReceived(m, []) == OnServerReceived(m, fds)
    ensures OnServerReceived(m, fds) == if m.kind in {2, 5, 6, 8, 9, 10} then Some(m) else None
  {
  }

  /** A message of the server that has a kind and a body passes exactly to the sockets in use. */
  lemma AnswerThroughProxy(m: Message, fds: nat)
    requires m.kind != -1 && m.data != []
    ensures OnServerReceived(m, fds) == if 0 <= m.socket < fds then Some(m) else None
  {
  }

  // ---------- the server ----------

  /** A request is answered once, without a body, to the socket it came from. */
  lemma LoginOnWire(s: R.Server, m: Message, now: int, g: Corrector)
    requires R.Valid(s) && 4 <= |m.pseudo| < 64 && m.kind == 2
    ensures |R.OnMsg(s, m, now, g).1| == 1
    ensures var a := R.OnMsg(s, m, now, g).1[0];
      a.socket == m.socket && a.id == -1 && a.data == [] && (a.kind == 8 || a.kind == 4)
  {
    R.LoginVerdict(s, m, now);
  }

  // a tells m's receiver what became of line m.
  predicate Acknowledges(a: Message, m: Message, taken: bool) {
    && a.id == m.id && a.socket == m.socket && a.data == [] && a.flag == 0
    && (if taken then a.kind == 5 && a.tries == m.tries else a.kind == 6 && a.tries == m.tries + 1)
  }

  // a passes line m on, of which text is left.
  predicate PassesLine(a: Message, m: Message, text: seq<uint8>) {
    a.kind == 1 && a.pseudo == m.pseudo && a.data == text && a.id == -1 && a.flag == 0
  }

  /** A line is taken when correction succeeds or it was asked for more than five times. Then it is
      acknowledged and, on the default channel, passed on as corrected under its sender's name to each
      connected session; otherwise it is asked for again, with its counter one higher, and nobody is told. */
  lemma LineAnswered(s: R.Server, m: Message, now: int, g: Corrector)
    requires R.Valid(s) && 4 <= |m.pseudo| < 64 && m.kind == 0
    ensures var r, taken := R.OnMsg(s, m, now, g), R.Verdict(g, m) == 0 || m.tries > 5;
      && r.0 == s && |r.1| >= 1 && Acknowledges(r.1[0], m, taken)
      && (!taken || m.flag != 0 ==> |r.1| == 1)
      && (forall i :: 1 <= i < |r.1| ==> PassesLine(r.1[i], m, R.Corrected(g, m)))
      && (taken && m.flag == 0 ==> forall socket: int ::
            R.Connected(s.clients, |s.clients|, socket) <==> IsPassedTo(r.1[1..], socket))
  {
    R.NoBadValue(s, m.pseudo);
    var a := R.Announcement(m, R.Corrected(g, m));
    var copies := R.Broadcast(s.clients, |s.clients|, a);
    R.BroadcastIs(s.clients, |s.clients|, a);
    var r := R.OnMsg(s, m, now, g).1;
    if (R.Verdict(g, m) == 0 || m.tries > R.MAX_RETRANSMISSION) && m.flag == 0 {
      assert r == [R.PositiveAck(m)] + copies;
      assert r[1..] == copies;
      forall i | 1 <= i < |r| ensures PassesLine(r[i], m, R.Corrected(g, m)) {
        assert r[i] == copies[i - 1] && copies[i - 1] in copies;
      }
      forall socket: int ensures R.Connected(s.clients, |s.clients|, socket) <==> IsPassedTo(copies, socket) {
        PassedToConnected(s, a, copies, socket);
      }
    }
  }

  ghost predicate IsPassedTo(ms: seq<Message>, socket: int) {
    exists i :: 0 <= i < |ms| && ms[i].socket == socket
  }

  lemma PassedToConnected(s: R.Server, a: Message, copies: seq<Message>, socket: int)
    requires copies == R.Broadcast(s.clients, |s.clients|, a)
    ensures R.Connected(s.clients, |s.clients|, socket) <==> IsPassedTo(copies, socket)
  {
    R.BroadcastIs(s.clients, |s.clients|, a);
    if R.Connected(s.clients, |s.clients|, socket) {
      var m := a.(socket := socket);
      assert m in copies;
      var i :| 0 <= i < |copies| && copies[i] == m;
    }
    if IsPassedTo(copies, socket) {
      var i :| 0 <= i < |copies| && copies[i].socket == socket;
      assert copies[i] in copies;
    }
  }
}
