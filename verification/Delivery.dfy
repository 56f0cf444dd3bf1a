/**
 What every step of the system keeps: each chat line a client waits for has exactly one token in
 flight, and each line ever sent is taken exactly once or still has its token open.
 */
module Delivery {
  import opened Bits
  import opened ChatMessages
  import opened MessageCoding
  import C = ClientTable
  import R = Registry
  import opened Proxy
  import opened ChatSystem

  // ---------- lines and slots ----------

  // m speaks of a line that client c sent.
  predicate About(sends: seq<Sent>, m: Message, c: nat) {
    m.serial < |sends| && sends[m.serial].client == c && sends[m.serial].id == m.id
  }

  predicate NameSent(p: string) {
    0 < |p| < MAX_NAME_LENGTH
  }

  ghost predicate SlotOk(sends: seq<Sent>, c: nat, cl: C.Client, i: nat)
    requires i < |cl.slots|
  {
    var m := cl.slots[i];
    && (m.kind == MSG_NULL || m.kind == MSG_CONNECTION_CLIENT || IsChat(m))
    && (IsChat(m) ==>
          && cl.connected && m.id == i && About(sends, m, c) && m.pseudo == cl.pseudo && m.data != []
          && m.data == sends[m.serial].data && m.control == sends[m.serial].control)
  }

  ghost predicate ClientOk(sends: seq<Sent>, c: nat, cl: C.Client) {
    && C.Tame(cl) && C.Phased(cl)
    && |cl.pseudo| < MAX_NAME_LENGTH && (cl.connected ==> R.NameOk(cl.pseudo))
    && (cl.pseudo == "" ==> cl.nb < |cl.slots|)
    && forall i :: 0 <= i < |cl.slots| ==> SlotOk(sends, c, cl, i)
  }

  // ---------- packets ----------

  // The counter of a line with one copy on its way to the server.
  predicate Counted(sends: seq<Sent>, m: Message)
    requires m.serial < |sends|
  {
    var s := sends[m.serial];
    s.copies == m.tries - s.start + 1 && (m.tries > s.start ==> m.tries <= R.MAX_RETRANSMISSION + 1)
  }

  // The counter of a line asked for again.
  predicate AskedAgain(sends: seq<Sent>, m: Message)
    requires m.serial < |sends|
  {
    var s := sends[m.serial];
    s.copies == m.tries - s.start && m.tries <= R.MAX_RETRANSMISSION + 1
  }

  ghost predicate RequestOk(clients: seq<C.Client>, m: Message, c: nat) {
    && c < |clients| && m.pseudo == clients[c].pseudo
    && if IsChat(m) then R.NameOk(m.pseudo) && m.data != [] else m.kind == MSG_CONNECTION_CLIENT && NameSent(m.pseudo)
  }

  ghost predicate UpOk(clients: seq<C.Client>, sends: seq<Sent>, m: Message, c: nat) {
    && RequestOk(clients, m, c)
    && (IsChat(m) ==> About(sends, m, c) && Counted(sends, m))
  }

  ghost predicate ReplyOk(clients: seq<C.Client>, sends: seq<Sent>, m: Message, c: nat) {
    && c < |clients|
    && (m.kind == MSG_ACK_POS || m.kind == MSG_ACK_NEG || m.kind == MSG_SERVER_CLIENT
        || m.kind == MSG_WELL_CONNECTED || (m.kind == MSG_ERROR && m.data == []))
    && (IsAck(m) ==> About(sends, m, c))
    && (m.kind == MSG_ACK_NEG ==> AskedAgain(sends, m))
    && (m.kind == MSG_WELL_CONNECTED ==> R.NameOk(clients[c].pseudo))
  }

  predicate FromClient(m: Message) {
    m.socket >= FIRST_SOCKET
  }

  function Origin(m: Message): nat
    requires FromClient(m)
  {
    m.socket - FIRST_SOCKET
  }

  ghost predicate PacketOk(clients: seq<C.Client>, sends: seq<Sent>, p: Packet) {
    match p
    case Up(c, m) => UpOk(clients, sends, m, c)
    case ToServer(m) => FromClient(m) && UpOk(clients, sends, m, Origin(m))
    case FromServer(m) => FromClient(m) && ReplyOk(clients, sends, m, Origin(m))
    case Down(c, m) => m.kind != MSG_ERROR && ReplyOk(clients, sends, m, c)
  }

  ghost predicate ServerOk(server: R.Server, n: nat) {
    && R.Valid(server)
    && forall i :: 0 <= i < |server.clients| && server.clients[i].Some? ==>
         FIRST_SOCKET <= server.clients[i].value.socket < Socket(n)
  }

  // ---------- conservation ----------

  // The client still waits for line x.
  predicate Live(clients: seq<C.Client>, sends: seq<Sent>, x: nat) {
    && x < |sends|
    && sends[x].client < |clients| && 0 <= sends[x].id < |clients[sends[x].client].slots|
    && IsChat(clients[sends[x].client].slots[sends[x].id])
    && clients[sends[x].client].slots[sends[x].id].serial == x
  }

  ghost function Serials(taken: seq<Taken>): multiset<nat> {
    if taken == [] then multiset{} else Serials(taken[..|taken| - 1]) + multiset{taken[|taken| - 1].serial}
  }

  // Line x was taken once, or has one open token and was not taken; and it has one token in all
  // exactly while its client waits for it.
  ghost predicate Conserved(s: System, x: nat) {
    var open, decided := Tally(s.net, false)[x], Tally(s.net, true)[x];
    && open + Serials(s.taken)[x] == (if x < |s.sends| then 1 else 0)
    && open + decided == (if Live(s.clients, s.sends, x) then 1 else 0)
  }

  // Never more copies than it takes to reach the forced acceptance.
  predicate CopiesOk(s: Sent) {
    1 <= s.copies && (s.copies > 1 ==> s.copies <= R.MAX_RETRANSMISSION + 2 - s.start)
  }

  ghost predicate PacketsOk(clients: seq<C.Client>, sends: seq<Sent>, net: seq<Packet>) {
    forall k :: 0 <= k < |net| ==> PacketOk(clients, sends, net[k])
  }

  ghost predicate ClientsOk(clients: seq<C.Client>, sends: seq<Sent>) {
    forall c :: 0 <= c < |clients| ==> ClientOk(sends, c, clients[c])
  }

  ghost predicate Inv(s: System) {
    && ClientsOk(s.clients, s.sends) && ServerOk(s.server, |s.clients|)
    && PacketsOk(s.clients, s.sends, s.net)
    && (forall x: nat :: x < |s.sends| ==> CopiesOk(s.sends[x]))
    && forall x: nat :: Conserved(s, x)
  }

  lemma NewSystemIsFine(n: nat, codes: map<string, seq<uint8>>)
    ensures Inv(NewSystem(n, codes))
  {
    var s := NewSystem(n, codes);
    R.NewServerIsValid(codes);
  }

  // ---------- what a step may change ----------

  // Names stay once given.
  ghost predicate NamesStay(a: seq<C.Client>, b: seq<C.Client>) {
    |a| == |b| && forall c :: 0 <= c < |a| && a[c].pseudo != "" ==> b[c].pseudo == a[c].pseudo
  }

  predicate SameLine(a: Sent, b: Sent) {
    b == a.(copies := b.copies)
  }

  // Lines stay, and so do their counters but for line x.
  ghost predicate SendsStay(a: seq<Sent>, b: seq<Sent>, x: int) {
    && |a| <= |b|
    && forall y :: 0 <= y < |a| ==> SameLine(a[y], b[y]) && (y != x ==> a[y] == b[y])
  }

  lemma PacketStays(clients: seq<C.Client>, sends: seq<Sent>, clients': seq<C.Client>, sends': seq<Sent>,
                    x: int, p: Packet)
    requires PacketOk(clients, sends, p) && NamesStay(clients, clients') && SendsStay(sends, sends', x)
    requires IsOpen(p) ==> p.m.serial != x
    ensures PacketOk(clients', sends', p)
  {
  }

  // A packet of line x shows in the tally.
  lemma OpenShows(net: seq<Packet>, k: nat, x: nat)
    requires k < |net| && IsOpen(net[k]) && net[k].m.serial == x
    ensures Tally(net, false)[x] >= 1
  {
    TallyWithout(net, k, false);
  }

  lemma PacketsStay(clients: seq<C.Client>, sends: seq<Sent>, clients': seq<C.Client>, sends': seq<Sent>,
                    x: int, net: seq<Packet>)
    requires PacketsOk(clients, sends, net) && NamesStay(clients, clients') && SendsStay(sends, sends', x)
    requires x < 0 || Tally(net, false)[x] == 0
    ensures PacketsOk(clients', sends', net)
  {
    forall k | 0 <= k < |net| ensures PacketOk(clients', sends', net[k]) {
      if IsOpen(net[k]) && net[k].m.serial == x {
        OpenShows(net, k, net[k].m.serial);
      }
      PacketStays(clients, sends, clients', sends', x, net[k]);
    }
  }

  lemma ClientsStay(clients: seq<C.Client>, sends: seq<Sent>, sends': seq<Sent>, x: int)
    requires ClientsOk(clients, sends) && SendsStay(sends, sends', x)
    ensures ClientsOk(clients, sends')
  {
    forall c | 0 <= c < |clients| ensures ClientOk(sends', c, clients[c]) {
      assert ClientOk(sends, c, clients[c]);
      forall i | 0 <= i < |clients[c].slots| ensures SlotOk(sends', c, clients[c], i) {
        assert SlotOk(sends, c, clients[c], i);
      }
    }
  }

  lemma RestIsOk(s: System, k: nat)
    requires Inv(s) && k < |s.net|
    ensures PacketsOk(s.clients, s.sends, Without(s.net, k)) && PacketOk(s.clients, s.sends, s.net[k])
  {
  }

  lemma PacketsJoin(clients: seq<C.Client>, sends: seq<Sent>, a: seq<Packet>, b: seq<Packet>)
    requires PacketsOk(clients, sends, a) && PacketsOk(clients, sends, b)
    ensures PacketsOk(clients, sends, a + b)
  {
  }

  // ---------- steps that only pass a packet on ----------

  // Packet k is replaced by out; nothing else changes but the server.
  ghost predicate PassesOn(s: System, k: nat, out: seq<Packet>, s': System)
    requires k < |s.net|
  {
    s' == s.(net := Without(s.net, k) + out, server := s'.server) && ServerOk(s'.server, |s.clients|)
  }

  lemma Cancel(a: multiset<nat>, b: multiset<nat>, c: multiset<nat>)
    requires a + c == b + c
    ensures a == b
  {
    forall x: nat ensures a[x] == b[x] {
      assert (a + c)[x] == a[x] + c[x];
    }
  }

  lemma TallyStays(net: seq<Packet>, k: nat, out: seq<Packet>, decided: bool)
    requires k < |net| && Tally(out, decided) == Of(net[k], decided)
    ensures Tally(Without(net, k) + out, decided) == Tally(net, decided)
  {
    TallyOfDelivery(net, k, out, decided);
    Cancel(Tally(Without(net, k) + out, decided), Tally(net, decided), Of(net[k], decided));
  }

  lemma ConservedStays(s: System, s': System)
    requires forall x: nat :: Conserved(s, x)
    requires s' == s.(net := s'.net, server := s'.server) && Tally(s'.net, false) == Tally(s.net, false)
    requires Tally(s'.net, true) == Tally(s.net, true)
    ensures forall x: nat :: Conserved(s', x)
  {
    forall x: nat ensures Conserved(s', x) {
      assert Conserved(s, x);
    }
  }

  lemma PassingKeeps(s: System, k: nat, out: seq<Packet>, s': System)
    requires Inv(s) && k < |s.net| && PassesOn(s, k, out, s')
    requires PacketsOk(s.clients, s.sends, out)
    requires forall d :: Tally(out, d) == Of(s.net[k], d)
    ensures Inv(s')
  {
    RestIsOk(s, k);
    PacketsJoin(s.clients, s.sends, Without(s.net, k), out);
    TallyStays(s.net, k, out, false);
    TallyStays(s.net, k, out, true);
    ConservedStays(s, s');
  }

  lemma TallyOfNothing(p: Packet)
    requires !IsOpen(p) && !IsDecided(p)
    ensures forall d :: Tally([], d) == Of(p, d)
  {
  }

  lemma TallyOfSame(p: Packet, q: Packet)
    requires IsOpen(p) == IsOpen(q) && IsDecided(p) == IsDecided(q) && p.m.serial == q.m.serial
    ensures forall d :: Tally([q], d) == Of(p, d)
  {
    TallyOfOne(q, false);
    TallyOfOne(q, true);
    assert forall d :: Of(q, d) == Of(p, d);
    forall d ensures Tally([q], d) == Of(p, d) {
      if d {
      } else {
      }
    }
  }

  /** The proxy passes every request on, whatever noise it adds. */
  lemma RequestPasses(clients: seq<C.Client>, sends: seq<Sent>, c: nat, m: Message, fl: seq<Flips>)
    requires PacketOk(clients, sends, Up(c, m)) && (Disturbed(m) ==> |fl| == |m.data|)
    ensures OnClientReceived(m.(socket := Socket(c)), fl).Some?
    ensures PacketOk(clients, sends, ToServer(OnClientReceived(m.(socket := Socket(c)), fl).value))
    ensures var r := OnClientReceived(m.(socket := Socket(c)), fl).value;
      r.(data := m.data, control := m.control, socket := m.socket) == m
  {
  }

  lemma UpKeeps(s: System, k: nat, fl: seq<Flips>)
    requires Inv(s) && k < |s.net| && s.net[k].Up? && (Disturbed(s.net[k].m) ==> |fl| == |s.net[k].m.data|)
    ensures Inv(OnUp(s, Without(s.net, k), s.net[k].c, s.net[k].m, fl))
  {
    var p := s.net[k];
    RestIsOk(s, k);
    RequestPasses(s.clients, s.sends, p.c, p.m, fl);
    var q := ToServer(OnClientReceived(p.m.(socket := Socket(p.c)), fl).value);
    TallyOfSame(p, q);
    PassingKeeps(s, k, [q], OnUp(s, Without(s.net, k), p.c, p.m, fl));
  }

  /** The proxy passes every reply on to a client, but for the errors of a login. */
  lemma FromKeeps(s: System, k: nat)
    requires Inv(s) && k < |s.net| && s.net[k].FromServer?
    ensures Inv(OnFrom(s, Without(s.net, k), s.net[k].m))
  {
    var p := s.net[k];
    RestIsOk(s, k);
    var s' := OnFrom(s, Without(s.net, k), p.m);
    if Dropped(p.m) {
      assert Without(s.net, k) + [] == Without(s.net, k);
      TallyOfNothing(p);
      PassingKeeps(s, k, [], s');
    } else {
      var q := Down(Origin(p.m), p.m);
      TallyOfSame(p, q);
      PassingKeeps(s, k, [q], s');
    }
  }

  // ---------- the server ----------

  lemma LoginKeepsServer(server: R.Server, n: nat, m: Message, now: int) returns (kind: int)
    requires ServerOk(server, n) && R.NameOk(m.pseudo) && FIRST_SOCKET <= m.socket < Socket(n)
    ensures ServerOk(R.OnConnection(server, m, now).0, n)
    ensures kind == MSG_WELL_CONNECTED || kind == MSG_ERROR
    ensures R.OnConnection(server, m, now).1 == [R.Reply(m, kind)]
  {
    R.OnConnectionKeepsValid(server, m, now);
    R.LoginVerdict(server, m, now);
    kind := if R.Admissible(server, m, now) then MSG_WELL_CONNECTED else MSG_ERROR;
  }

  lemma QuietPasses(s: System, k: nat, out: seq<Packet>, s': System)
    requires Inv(s) && k < |s.net| && PassesOn(s, k, out, s')
    requires PacketsOk(s.clients, s.sends, out) && !IsOpen(s.net[k]) && !IsDecided(s.net[k])
    requires forall i :: 0 <= i < |out| ==> !IsOpen(out[i]) && !IsDecided(out[i])
    ensures Inv(s')
  {
    QuietTally(out, false);
    QuietTally(out, true);
    forall d ensures Tally(out, d) == Of(s.net[k], d) {
      if d {} else {}
    }
    PassingKeeps(s, k, out, s');
  }

  lemma RequestKeeps(s: System, k: nat, now: int, g: Corrector)
    requires Inv(s) && k < |s.net| && s.net[k].ToServer? && !IsChat(s.net[k].m)
    ensures Inv(OnServer(s, Without(s.net, k), s.net[k].m, now, g))
  {
    var m := s.net[k].m;
    RestIsOk(s, k);
    var out := [];
    if R.NameOk(m.pseudo) {
      var kind := LoginKeepsServer(s.server, |s.clients|, m, now);
      out := [R.Reply(m, kind)];
    }
    assert R.OnMsg(s.server, m, now, g).1 == out;
    QuietPasses(s, k, Answers(out), OnServer(s, Without(s.net, k), m, now, g));
  }

  lemma ChatIsAnswered(s: System, m: Message, now: int, g: Corrector)
    requires R.Valid(s.server) && R.NameOk(m.pseudo) && IsChat(m)
    ensures R.OnMsg(s.server, m, now, g) ==
      (s.server, R.Answer(s.server.clients, m, R.Verdict(g, m), R.Corrected(g, m)))
  {
    R.NoBadValue(s.server, m.pseudo);
  }

  // Anything else the server says announces nothing.
  lemma OtherAnswers(server: R.Server, m: Message, now: int, g: Corrector)
    requires R.Valid(server) && !Takes(m, g)
    ensures var ms := R.OnMsg(server, m, now, g).1;
      forall i :: 0 <= i < |ms| ==> ms[i].kind != MSG_SERVER_CLIENT
  {
    R.NoBadValue(server, m.pseudo);
  }

  lemma RefusalKeeps(s: System, k: nat, now: int, g: Corrector)
    requires Inv(s) && k < |s.net| && s.net[k].ToServer? && IsChat(s.net[k].m) && !R.Accepts(g, s.net[k].m)
    ensures Inv(OnServer(s, Without(s.net, k), s.net[k].m, now, g))
  {
    var p := s.net[k];
    RestIsOk(s, k);
    ChatIsAnswered(s, p.m, now, g);
    var q := FromServer(R.NegativeAck(p.m));
    assert Answers([R.NegativeAck(p.m)]) == [q];
    TallyOfSame(p, q);
    PassingKeeps(s, k, [q], OnServer(s, Without(s.net, k), p.m, now, g));
  }

  lemma AnnouncementIsOk(clients: seq<C.Client>, sends: seq<Sent>, server: R.Server, a: Message, m: Message)
    requires ServerOk(server, |clients|) && a.kind == MSG_SERVER_CLIENT
    requires m in R.Broadcast(server.clients, |server.clients|, a)
    ensures PacketOk(clients, sends, FromServer(m)) && m.kind == MSG_SERVER_CLIENT
  {
    R.BroadcastIs(server.clients, |server.clients|, a);
  }

  lemma AnnouncementsAreOk(clients: seq<C.Client>, sends: seq<Sent>, server: R.Server, a: Message)
    requires ServerOk(server, |clients|) && a.kind == MSG_SERVER_CLIENT
    ensures var out := Answers(R.Broadcast(server.clients, |server.clients|, a));
      && PacketsOk(clients, sends, out)
      && Tally(out, false) == multiset{} && Tally(out, true) == multiset{}
  {
    var ms := R.Broadcast(server.clients, |server.clients|, a);
    var out := Answers(ms);
    forall k | 0 <= k < |out| ensures PacketOk(clients, sends, out[k]) && !IsOpen(out[k]) && !IsDecided(out[k]) {
      AnnouncementIsOk(clients, sends, server, a, ms[k]);
    }
    QuietTally(out, false);
    QuietTally(out, true);
  }

  lemma TallyOfAnswer(p: Packet, ps: seq<Packet>)
    requires IsDecided(p) && !IsOpen(p) && Tally(ps, false) == multiset{} && Tally(ps, true) == multiset{}
    ensures Tally([p] + ps, false) == multiset{} && Tally([p] + ps, true) == multiset{p.m.serial}
  {
    TallyOfFirst(p, ps, false);
    TallyOfFirst(p, ps, true);
  }

  // What goes out after the acknowledgment of a line that is taken.
  function Announcements(server: R.Server, m: Message, text: seq<uint8>): seq<Message> {
    if m.flag == 0 then R.Broadcast(server.clients, |server.clients|, R.Announcement(m, text)) else []
  }

  lemma AnswerSplits(server: R.Server, m: Message, rc: int, text: seq<uint8>)
    requires rc == 0 || m.tries > R.MAX_RETRANSMISSION
    ensures Answers(R.Answer(server.clients, m, rc, text)) ==
      [FromServer(R.PositiveAck(m))] + Answers(Announcements(server, m, text))
  {
    var ack, ms := R.PositiveAck(m), Announcements(server, m, text);
    assert R.Answer(server.clients, m, rc, text) == [ack] + ms;
    assert Answers([ack] + ms) == [FromServer(ack)] + Answers(ms);
  }

  lemma LaterAnswersAreOk(clients: seq<C.Client>, sends: seq<Sent>, server: R.Server, m: Message, text: seq<uint8>)
    requires ServerOk(server, |clients|)
    ensures var ps := Answers(Announcements(server, m, text));
      PacketsOk(clients, sends, ps) && Tally(ps, false) == multiset{} && Tally(ps, true) == multiset{}
  {
    if m.flag == 0 {
      AnnouncementsAreOk(clients, sends, server, R.Announcement(m, text));
    }
  }

  lemma AckIsOk(clients: seq<C.Client>, sends: seq<Sent>, m: Message)
    requires FromClient(m) && UpOk(clients, sends, m, Origin(m)) && IsChat(m)
    ensures PacketsOk(clients, sends, [FromServer(R.PositiveAck(m))])
  {
  }

  // The acknowledgment and the announcements of a line that is taken.
  lemma AnswerIsOk(clients: seq<C.Client>, sends: seq<Sent>, server: R.Server, m: Message, rc: int, text: seq<uint8>)
    requires ServerOk(server, |clients|)
    requires FromClient(m) && UpOk(clients, sends, m, Origin(m)) && IsChat(m)
    requires rc == 0 || m.tries > R.MAX_RETRANSMISSION
    ensures var out := Answers(R.Answer(server.clients, m, rc, text));
      && PacketsOk(clients, sends, out)
      && Tally(out, false) == multiset{} && Tally(out, true) == multiset{m.serial}
  {
    var p, ps := FromServer(R.PositiveAck(m)), Answers(Announcements(server, m, text));
    AnswerSplits(server, m, rc, text);
    LaterAnswersAreOk(clients, sends, server, m, text);
    TallyOfAnswer(p, ps);
    AckIsOk(clients, sends, m);
    PacketsJoin(clients, sends, [p], ps);
  }

  lemma SerialsOfMore(taken: seq<Taken>, t: Taken)
    ensures Serials(taken + [t]) == Serials(taken) + multiset{t.serial}
  {
    assert (taken + [t])[..|taken|] == taken;
  }

  lemma AcceptanceConserves(s: System, k: nat, out: seq<Packet>, t: Taken, x: nat, s': System)
    requires Conserved(s, x) && k < |s.net| && IsOpen(s.net[k]) && !IsDecided(s.net[k]) && t.serial == s.net[k].m.serial
    requires Tally(out, false) == multiset{} && Tally(out, true) == multiset{s.net[k].m.serial}
    requires s' == s.(net := Without(s.net, k) + out, taken := s.taken + [t])
    ensures Conserved(s', x)
  {
    TallyOfDelivery(s.net, k, out, false);
    TallyOfDelivery(s.net, k, out, true);
    SerialsOfMore(s.taken, t);
    var a, b := Tally(s'.net, false), Tally(s'.net, true);
    assert (a + multiset{t.serial})[x] == Tally(s.net, false)[x];
    assert b[x] == (Tally(s.net, true) + multiset{t.serial})[x];
    assert Serials(s'.taken)[x] == (Serials(s.taken) + multiset{t.serial})[x];
  }

  lemma AcceptanceKeeps(s: System, k: nat, now: int, g: Corrector)
    requires Inv(s) && k < |s.net| && s.net[k].ToServer? && IsChat(s.net[k].m) && R.Accepts(g, s.net[k].m)
    ensures Inv(OnServer(s, Without(s.net, k), s.net[k].m, now, g))
  {
    var p := s.net[k];
    var s' := OnServer(s, Without(s.net, k), p.m, now, g);
    RestIsOk(s, k);
    ChatIsAnswered(s, p.m, now, g);
    var rc, text := R.Verdict(g, p.m), R.Corrected(g, p.m);
    AnswerIsOk(s.clients, s.sends, s.server, p.m, rc, text);
    var out := Answers(R.Answer(s.server.clients, p.m, rc, text));
    PacketsJoin(s.clients, s.sends, Without(s.net, k), out);
    forall x: nat ensures Conserved(s', x) {
      AcceptanceConserves(s, k, out, Taken(p.m.serial, text, rc != 0), x, s');
    }
  }

  lemma ServerKeeps(s: System, k: nat, now: int, g: Corrector)
    requires Inv(s) && k < |s.net| && s.net[k].ToServer?
    ensures Inv(OnServer(s, Without(s.net, k), s.net[k].m, now, g))
  {
    if !IsChat(s.net[k].m) {
      RequestKeeps(s, k, now, g);
    } else if R.Accepts(g, s.net[k].m) {
      AcceptanceKeeps(s, k, now, g);
    } else {
      RefusalKeeps(s, k, now, g);
    }
  }
}
