/**
 The steps of the clients keep the invariant, and so does every step of the system.
 */
module DeliverySteps {
  import opened ChatMessages
  import opened MessageCoding
  import C = ClientTable
  import R = Registry
  import opened ChatSystem
  import opened Delivery

  // ---------- a reply arrives ----------

  lemma TokenShows(net: seq<Packet>, k: nat)
    requires k < |net|
    ensures IsOpen(net[k]) ==> Tally(net, false)[net[k].m.serial] >= 1
    ensures IsDecided(net[k]) ==> Tally(net, true)[net[k].m.serial] >= 1
  {
    TallyWithout(net, k, false);
    TallyWithout(net, k, true);
  }

  /** A message about a line only travels while the client still holds that line in that slot. */
  lemma TokenIsLive(s: System, k: nat)
    requires Inv(s) && k < |s.net| && (IsOpen(s.net[k]) || IsDecided(s.net[k]))
    ensures Live(s.clients, s.sends, s.net[k].m.serial)
  {
    TokenShows(s.net, k);
    assert Conserved(s, s.net[k].m.serial);
  }

  // The slot an acknowledgment names.
  lemma AckFindsSlot(s: System, k: nat)
    requires Inv(s) && k < |s.net| && s.net[k].Down? && IsAck(s.net[k].m)
    ensures var c, m := s.net[k].c, s.net[k].m;
      && c < |s.clients| && 0 <= m.id < s.clients[c].nb && m.id < |s.clients[c].slots|
      && IsChat(s.clients[c].slots[m.id]) && s.clients[c].slots[m.id].serial == m.serial < |s.sends|
      && s.clients[c].connected && !s.clients[c].waiting && About(s.sends, m, c)
  {
    TokenIsLive(s, k);
    var c := s.net[k].c;
    RestIsOk(s, k);
    assert ClientOk(s.sends, c, s.clients[c]);
    assert SlotOk(s.sends, c, s.clients[c], s.net[k].m.id);
  }

  lemma ClientsBut(clients: seq<C.Client>, sends: seq<Sent>, c: nat, cl: C.Client)
    requires ClientsOk(clients, sends) && c < |clients| && ClientOk(sends, c, cl)
    ensures ClientsOk(clients[c := cl], sends)
  {
  }

  // A client whose slots keep their lines.
  lemma LiveStays(clients: seq<C.Client>, sends: seq<Sent>, c: nat, cl: C.Client, sends': seq<Sent>, y: nat)
    requires c < |clients| && |cl.slots| == |clients[c].slots| && |sends'| == |sends|
    requires forall z :: 0 <= z < |sends| ==> SameLine(sends[z], sends'[z])
    requires forall i :: 0 <= i < |cl.slots| ==>
      IsChat(cl.slots[i]) == IsChat(clients[c].slots[i])
      && (IsChat(cl.slots[i]) ==> cl.slots[i].serial == clients[c].slots[i].serial)
    ensures Live(clients[c := cl], sends', y) == Live(clients, sends, y)
  {
  }

  // Any other reply: the client may become connected; it sends nothing.
  lemma OtherReplyKeeps(s: System, k: nat)
    requires Inv(s) && k < |s.net| && s.net[k].Down? && !IsAck(s.net[k].m)
    ensures var r := OnDown(s, Without(s.net, k), s.net[k].c, s.net[k].m); r.Some? && Inv(r.value)
  {
    var c, m := s.net[k].c, s.net[k].m;
    RestIsOk(s, k);
    var cl := s.clients[c];
    assert ClientOk(s.sends, c, cl);
    var cl' := C.OnMsg(cl, m).client;
    assert C.OnMsg(cl, m) == C.Done(cl', []) && cl'.slots == cl.slots && cl'.pseudo == cl.pseudo;
    OtherReplyClient(s.sends, c, cl, m);
    var s1 := s.(clients := s.clients[c := cl']);
    ClientsBut(s.clients, s.sends, c, cl');
    PacketsStay(s.clients, s.sends, s1.clients, s.sends, -1, s.net);
    forall x: nat ensures Conserved(s1, x) {
      assert Conserved(s, x);
      LiveStays(s.clients, s.sends, c, cl', s.sends, x);
    }
    assert Ups(c, []) == [];
    QuietPasses(s1, k, [], s1.(net := Without(s.net, k) + []));
  }

  lemma OtherReplyClient(sends: seq<Sent>, c: nat, cl: C.Client, m: Message)
    requires ClientOk(sends, c, cl) && !IsAck(m) && m.kind != MSG_ERROR
    requires m.kind == MSG_WELL_CONNECTED ==> R.NameOk(cl.pseudo)
    ensures C.OnMsg(cl, m).Done? && ClientOk(sends, c, C.OnMsg(cl, m).client)
  {
    var cl' := C.OnMsg(cl, m).client;
    forall i | 0 <= i < |cl'.slots| ensures SlotOk(sends, c, cl', i) {
      assert SlotOk(sends, c, cl, i);
    }
  }

  // ---------- positive acknowledgment ----------

  lemma ClearedClient(sends: seq<Sent>, c: nat, cl: C.Client, id: nat)
    requires ClientOk(sends, c, cl) && id < |cl.slots|
    ensures ClientOk(sends, c, C.Clear(cl, id))
  {
    var cl' := C.Clear(cl, id);
    forall i | 0 <= i < |cl'.slots| ensures SlotOk(sends, c, cl', i) {
      assert SlotOk(sends, c, cl, i);
    }
  }

  // The slot of line x0 is cleared.
  lemma LiveCleared(clients: seq<C.Client>, sends: seq<Sent>, c: nat, id: nat, x0: nat, y: nat)
    requires c < |clients| && id < |clients[c].slots| && clients[c].slots[id].serial == x0
    requires x0 < |sends| && sends[x0].client == c && sends[x0].id == id
    ensures Live(clients[c := C.Clear(clients[c], id)], sends, y) == (y != x0 && Live(clients, sends, y))
  {
  }

  lemma ClearedConserves(s: System, k: nat, s': System, x: nat)
    requires Conserved(s, x) && k < |s.net| && IsDecided(s.net[k]) && !IsOpen(s.net[k])
    requires s' == s.(net := Without(s.net, k), clients := s'.clients)
    requires Live(s.clients, s.sends, s.net[k].m.serial)
    requires Live(s'.clients, s.sends, x) == (x != s.net[k].m.serial && Live(s.clients, s.sends, x))
    ensures Conserved(s', x)
  {
    var p := s.net[k];
    TallyWithout(s.net, k, false);
    TallyWithout(s.net, k, true);
    assert Tally(s.net, false)[x] == Tally(s'.net, false)[x];
    assert Tally(s.net, true)[x] == Tally(s'.net, true)[x] + Of(p, true)[x];
  }

  lemma PositiveKeeps(s: System, k: nat)
    requires Inv(s) && k < |s.net| && s.net[k].Down? && s.net[k].m.kind == MSG_ACK_POS
    ensures var r := OnDown(s, Without(s.net, k), s.net[k].c, s.net[k].m); r.Some? && Inv(r.value)
  {
    var c, m := s.net[k].c, s.net[k].m;
    RestIsOk(s, k);
    AckFindsSlot(s, k);
    var cl' := C.Clear(s.clients[c], m.id);
    ClearedClient(s.sends, c, s.clients[c], m.id);
    ClientsBut(s.clients, s.sends, c, cl');
    var s' := s.(clients := s.clients[c := cl'], net := Without(s.net, k));
    assert C.OnMsg(s.clients[c], m) == C.Done(cl', []);
    assert Without(s.net, k) + Ups(c, []) == Without(s.net, k);
    assert OnDown(s, Without(s.net, k), c, m) == Some(s');
    PacketsStay(s.clients, s.sends, s'.clients, s.sends, -1, s'.net);
    TokenIsLive(s, k);
    forall x: nat ensures Conserved(s', x) {
      assert Conserved(s, x);
      LiveCleared(s.clients, s.sends, c, m.id, m.serial, x);
      ClearedConserves(s, k, s', x);
    }
  }

  // ---------- negative acknowledgment ----------

  function Again(cl: C.Client, m: Message): Message
    requires 0 <= m.id < |cl.slots|
  {
    cl.slots[m.id].(tries := m.tries)
  }

  lemma ResentClient(sends: seq<Sent>, c: nat, cl: C.Client, m: Message)
    requires ClientOk(sends, c, cl) && 0 <= m.id < |cl.slots|
    ensures ClientOk(sends, c, cl.(slots := cl.slots[m.id := Again(cl, m)]))
  {
    var cl' := cl.(slots := cl.slots[m.id := Again(cl, m)]);
    forall i | 0 <= i < |cl'.slots| ensures SlotOk(sends, c, cl', i) {
      assert SlotOk(sends, c, cl, i);
    }
  }

  // The copy sent again: one more of its line, its counter below the forced acceptance.
  lemma ResentIsOk(clients: seq<C.Client>, sends: seq<Sent>, c: nat, m: Message)
    requires c < |clients| && ClientOk(sends, c, clients[c]) && About(sends, m, c) && AskedAgain(sends, m)
    requires 0 <= m.id < |clients[c].slots| && IsChat(clients[c].slots[m.id])
    requires clients[c].slots[m.id].serial == m.serial
    requires CopiesOk(sends[m.serial])
    ensures PacketOk(clients, OneMore(sends, m.serial), Up(c, Again(clients[c], m)))
    ensures CopiesOk(OneMore(sends, m.serial)[m.serial])
  {
    assert SlotOk(sends, c, clients[c], m.id);
  }

  lemma ResentConserves(s: System, k: nat, q: Packet, s': System, x: nat)
    requires Conserved(s, x) && k < |s.net| && IsOpen(s.net[k]) && !IsDecided(s.net[k])
    requires IsOpen(q) && !IsDecided(q) && q.m.serial == s.net[k].m.serial
    requires s' == s.(net := Without(s.net, k) + [q], clients := s'.clients, sends := s'.sends)
    requires |s'.sends| == |s.sends| && Live(s'.clients, s'.sends, x) == Live(s.clients, s.sends, x)
    ensures Conserved(s', x)
  {
    TallyOfSame(s.net[k], q);
    TallyStays(s.net, k, [q], false);
    TallyStays(s.net, k, [q], true);
  }

  lemma OnlyToken(s: System, k: nat)
    requires Inv(s) && k < |s.net| && IsOpen(s.net[k])
    ensures Tally(Without(s.net, k), false)[s.net[k].m.serial] == 0
  {
    TallyWithout(s.net, k, false);
    assert Conserved(s, s.net[k].m.serial);
  }

  // What the acknowledgment in packet k makes of the system.
  ghost function Resent(s: System, k: nat): System
    requires k < |s.net| && s.net[k].Down? && s.net[k].c < |s.clients|
    requires 0 <= s.net[k].m.id < |s.clients[s.net[k].c].slots|
  {
    var c, m := s.net[k].c, s.net[k].m;
    var cl := s.clients[c];
    s.(clients := s.clients[c := cl.(slots := cl.slots[m.id := Again(cl, m)])],
       net := Without(s.net, k) + [Up(c, Again(cl, m))],
       sends := OneMore(s.sends, m.serial))
  }

  lemma ResentPeers(s: System, k: nat)
    requires Inv(s) && k < |s.net| && s.net[k].Down? && s.net[k].m.kind == MSG_ACK_NEG
    requires s.net[k].c < |s.clients| && 0 <= s.net[k].m.id < |s.clients[s.net[k].c].slots|
    requires s.net[k].m.serial < |s.sends|
    ensures ClientsOk(Resent(s, k).clients, Resent(s, k).sends)
    ensures PacketsOk(Resent(s, k).clients, Resent(s, k).sends, Without(s.net, k))
  {
    var c, m := s.net[k].c, s.net[k].m;
    RestIsOk(s, k);
    var s' := Resent(s, k);
    assert ClientOk(s.sends, c, s.clients[c]);
    ResentClient(s.sends, c, s.clients[c], m);
    ClientsBut(s.clients, s.sends, c, s'.clients[c]);
    assert SendsStay(s.sends, s'.sends, m.serial);
    ClientsStay(s'.clients, s.sends, s'.sends, m.serial);
    OnlyToken(s, k);
    PacketsStay(s.clients, s.sends, s'.clients, s'.sends, m.serial, Without(s.net, k));
  }

  lemma ResentTokens(s: System, k: nat)
    requires Inv(s) && k < |s.net| && s.net[k].Down? && s.net[k].m.kind == MSG_ACK_NEG
    requires s.net[k].c < |s.clients| && 0 <= s.net[k].m.id < |s.clients[s.net[k].c].slots|
    requires IsChat(s.clients[s.net[k].c].slots[s.net[k].m.id])
    requires s.clients[s.net[k].c].slots[s.net[k].m.id].serial == s.net[k].m.serial < |s.sends|
    ensures forall x: nat :: Conserved(Resent(s, k), x)
  {
    var c, s' := s.net[k].c, Resent(s, k);
    forall x: nat ensures Conserved(s', x) {
      assert Conserved(s, x);
      LiveStays(s.clients, s.sends, c, s'.clients[c], s'.sends, x);
      ResentConserves(s, k, s'.net[|s'.net| - 1], s', x);
    }
  }

  lemma NegativeKeeps(s: System, k: nat)
    requires Inv(s) && k < |s.net| && s.net[k].Down? && s.net[k].m.kind == MSG_ACK_NEG
    ensures var r := OnDown(s, Without(s.net, k), s.net[k].c, s.net[k].m); r.Some? && Inv(r.value)
  {
    var c, m := s.net[k].c, s.net[k].m;
    RestIsOk(s, k);
    AckFindsSlot(s, k);
    var cl, s' := s.clients[c], Resent(s, k);
    assert OnDown(s, Without(s.net, k), c, m) == Some(s') by {
      assert C.OnMsg(cl, m) == C.Done(s'.clients[c], [Again(cl, m)]);
      assert Ups(c, [Again(cl, m)]) == [Up(c, Again(cl, m))];
    }
    ResentPeers(s, k);
    ResentTokens(s, k);
    var q := Up(c, Again(cl, m));
    ResentIsOk(s.clients, s.sends, c, m);
    PacketStays(s.clients, s'.sends, s'.clients, s'.sends, -1, q);
    PacketsJoin(s'.clients, s'.sends, Without(s.net, k), [q]);
  }

  lemma DownKeeps(s: System, k: nat)
    requires Inv(s) && k < |s.net| && s.net[k].Down?
    ensures var r := OnDown(s, Without(s.net, k), s.net[k].c, s.net[k].m); r.Some? && Inv(r.value)
  {
    if s.net[k].m.kind == MSG_ACK_POS {
      PositiveKeeps(s, k);
    } else if s.net[k].m.kind == MSG_ACK_NEG {
      NegativeKeeps(s, k);
    } else {
      OtherReplyKeeps(s, k);
    }
  }

  // ---------- a line is typed ----------

  // The client logs in: the first slot holds the request, no line is held.
  lemma LoginClient(sends: seq<Sent>, c: nat, cl: C.Client, l: C.Line)
    requires ClientOk(sends, c, cl) && C.LineFits(cl, l) && C.IsLogin(cl, l)
    ensures C.Login(cl, l.text, l.code).Done?
    ensures ClientOk(sends, c, C.Login(cl, l.text, l.code).client)
    ensures forall i :: 0 <= i < |cl.slots| ==> !IsChat(cl.slots[i])
  {
    var cl' := C.Login(cl, l.text, l.code).client;
    forall i | 0 <= i < |cl.slots| ensures !IsChat(cl.slots[i]) && SlotOk(sends, c, cl', i) {
      assert SlotOk(sends, c, cl, i);
    }
  }

  lemma LoginKeeps(s: System, c: nat, l: C.Line)
    requires Inv(s) && c < |s.clients| && C.LineFits(s.clients[c], l) && C.IsLogin(s.clients[c], l)
    ensures OnType(s, c, l).Some? && Inv(OnType(s, c, l).value)
  {
    var cl := s.clients[c];
    assert ClientOk(s.sends, c, cl);
    LoginClient(s.sends, c, cl, l);
    var cl' := C.Login(cl, l.text, l.code).client;
    var q := Up(c, C.Request(l.text, l.code));
    ClientsBut(s.clients, s.sends, c, cl');
    var s' := s.(clients := s.clients[c := cl'], net := s.net + [q]);
    assert OnType(s, c, l) == Some(s') by {
      assert Ups(c, [q.m]) == [q];
    }
    PacketsStay(s.clients, s.sends, s'.clients, s.sends, -1, s.net);
    PacketsJoin(s'.clients, s.sends, s.net, [q]);
    forall x: nat ensures Conserved(s', x) {
      assert Conserved(s, x);
      AddedQuietly(s.net, q);
      LiveStays(s.clients, s.sends, c, cl', s.sends, x);
    }
  }

  lemma AddedQuietly(net: seq<Packet>, q: Packet)
    requires !IsOpen(q) && !IsDecided(q)
    ensures Tally(net + [q], false) == Tally(net, false) && Tally(net + [q], true) == Tally(net, true)
  {
    assert (net + [q])[..|net|] == net;
  }

  // The line and the slot it takes.
  lemma SentClient(sends: seq<Sent>, c: nat, cl: C.Client, l: C.Line)
    requires ClientOk(sends, c, cl) && C.LineFits(cl, l) && C.IsSend(cl) && l.serial == |sends|
    ensures var r := C.Send(cl, l.data, l.control, l.junk, l.serial);
      && r.Done? && |r.out| == 1 && 0 <= r.out[0].id < |r.client.slots|
      && var m := r.out[0];
      var sends' := sends + [Sent(c, m.id, l.data, l.control, m.tries, 1)];
      && m.serial == |sends| && IsChat(m) && r.client.slots[m.id] == m
      && ClientOk(sends', c, r.client)
      && About(sends', m, c) && Counted(sends', m) && m.pseudo == r.client.pseudo == cl.pseudo && m.data != []
  {
    C.SendKeepsTame(cl, l.data, l.control, l.junk, l.serial);
    var r := C.Send(cl, l.data, l.control, l.junk, l.serial);
    var m := r.out[0];
    var sends' := sends + [Sent(c, m.id, l.data, l.control, m.tries, 1)];
    forall i | 0 <= i < |r.client.slots| ensures SlotOk(sends', c, r.client, i) {
      if i != m.id && i < |cl.slots| {
        assert SlotOk(sends, c, cl, i);
      }
    }
  }

  // The lines waited for are those from before and the new one.
  lemma SentLive(clients: seq<C.Client>, sends: seq<Sent>, c: nat, l: C.Line, y: nat)
    requires c < |clients| && ClientOk(sends, c, clients[c])
    requires C.LineFits(clients[c], l) && C.IsSend(clients[c]) && l.serial == |sends|
    ensures var r := C.Send(clients[c], l.data, l.control, l.junk, l.serial);
      r.Done? && |r.out| == 1
      && var sends' := sends + [Sent(c, r.out[0].id, l.data, l.control, r.out[0].tries, 1)];
      Live(clients[c := r.client], sends', y) == (y == |sends| || Live(clients, sends, y))
  {
    SentClient(sends, c, clients[c], l);
    C.TameHasNext(clients[c], l.junk);
  }

  lemma SentConserves(s: System, s': System, q: Packet, line: Sent, x: nat)
    requires Conserved(s, x) && IsOpen(q) && !IsDecided(q) && q.m.serial == |s.sends|
    requires s' == s.(net := s.net + [q], clients := s'.clients, sends := s.sends + [line])
    requires Live(s'.clients, s'.sends, x) == (x == |s.sends| || Live(s.clients, s.sends, x))
    ensures Conserved(s', x)
  {
    assert (s.net + [q])[..|s.net|] == s.net;
    assert Tally(s'.net, false)[x] == Tally(s.net, false)[x] + Of(q, false)[x];
    assert Tally(s'.net, true)[x] == Tally(s.net, true)[x];
  }

  lemma SendKeeps(s: System, c: nat, l: C.Line)
    requires Inv(s) && c < |s.clients| && C.LineFits(s.clients[c], l) && C.IsSend(s.clients[c]) && l.serial == |s.sends|
    ensures OnType(s, c, l).Some? && Inv(OnType(s, c, l).value)
  {
    var cl := s.clients[c];
    assert ClientOk(s.sends, c, cl);
    SentClient(s.sends, c, cl, l);
    var r := C.Send(cl, l.data, l.control, l.junk, l.serial);
    var q, line := Up(c, r.out[0]), Sent(c, r.out[0].id, l.data, l.control, r.out[0].tries, 1);
    var s' := s.(clients := s.clients[c := r.client], net := s.net + [q], sends := s.sends + [line]);
    assert OnType(s, c, l) == Some(s') by {
      assert r.out == [q.m] && Ups(c, [q.m]) == [q];
    }
    assert SendsStay(s.sends, s'.sends, -1);
    ClientsStay(s.clients, s.sends, s'.sends, -1);
    ClientsBut(s.clients, s'.sends, c, r.client);
    PacketsStay(s.clients, s.sends, s'.clients, s'.sends, -1, s.net);
    assert PacketOk(s'.clients, s'.sends, q);
    PacketsJoin(s'.clients, s'.sends, s.net, [q]);
    forall x: nat ensures Conserved(s', x) {
      assert Conserved(s, x);
      SentLive(s.clients, s.sends, c, l, x);
      SentConserves(s, s', q, line, x);
    }
  }

  lemma TypeKeeps(s: System, c: nat, l: C.Line)
    requires Inv(s) && c < |s.clients| && C.LineFits(s.clients[c], l) && l.serial == |s.sends|
    ensures OnType(s, c, l).Some? && Inv(OnType(s, c, l).value)
  {
    var cl := s.clients[c];
    if C.IsLogin(cl, l) {
      LoginKeeps(s, c, l);
    } else if C.IsSend(cl) {
      SendKeeps(s, c, l);
    } else {
      assert s.clients[c := cl] == s.clients && s.net + Ups(c, []) == s.net;
    }
  }

  // ---------- every step ----------

  /** Every step keeps the invariant, and no step makes a client stop: the search for a slot never
      panics and no acknowledgment reads outside the table. */
  lemma StepKeeps(s: System, e: Event, g: Corrector)
    requires Inv(s) && Enabled(s, e)
    ensures Step(s, e, g).Some? && Inv(Step(s, e, g).value)
  {
    match e
    case Type(c, line) => TypeKeeps(s, c, line);
    case Deliver(k, fl, now) =>
      match s.net[k]
      case Up(c, m) => UpKeeps(s, k, fl);
      case ToServer(m) => ServerKeeps(s, k, now, g);
      case FromServer(m) => FromKeeps(s, k);
      case Down(c, m) => DownKeeps(s, k);
  }
}
