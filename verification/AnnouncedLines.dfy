/**
 Announcements: a client is told of a line once for each time the line was taken while its session was
 connected, so once at most, and a line is announced under its sender's name.
 */
module AnnouncedLines {
  import opened Bits
  import opened ChatMessages
  import opened MessageCoding
  import C = ClientTable
  import R = Registry
  import opened Proxy
  import opened ChatSystem
  import opened Delivery
  import opened DeliverySteps
  import opened SystemRuns
  import opened DefaultChannel

  // ---------- names ----------

  // A session bears the name of the client behind its socket.
  ghost predicate SessionNamed(clients: seq<C.Client>, session: R.Session) {
    && FIRST_SOCKET <= session.socket < Socket(|clients|)
    && clients[session.socket - FIRST_SOCKET].pseudo == session.pseudo && R.NameOk(session.pseudo)
  }

  ghost predicate Named(clients: seq<C.Client>, sessions: seq<Option<R.Session>>) {
    forall i :: 0 <= i < |sessions| && sessions[i].Some? ==> SessionNamed(clients, sessions[i].value)
  }

  // An announcement has a body and bears the name of the client that sent its line.
  ghost predicate Signed(clients: seq<C.Client>, sends: seq<Sent>, m: Message) {
    && m.serial < |sends| && sends[m.serial].client < |clients|
    && clients[sends[m.serial].client].pseudo == m.pseudo && R.NameOk(m.pseudo) && m.data != []
  }

  predicate IsAnnouncement(p: Packet) {
    (p.FromServer? || p.Down?) && p.m.kind == MSG_SERVER_CLIENT
  }

  ghost predicate PacketSigned(clients: seq<C.Client>, sends: seq<Sent>, p: Packet) {
    IsAnnouncement(p) ==> Signed(clients, sends, p.m)
  }

  ghost predicate AllSigned(s: System) {
    forall k :: 0 <= k < |s.net| ==> PacketSigned(s.clients, s.sends, s.net[k])
  }

  ghost predicate NamesInv(s: System) {
    Inv(s) && Named(s.clients, s.server.clients) && AllSigned(s) && AllDefault(s)
  }

  // What no step takes back.
  ghost predicate Extends(s: System, s': System) {
    && NamesStay(s.clients, s'.clients) && |s.sends| <= |s'.sends|
    && forall y :: 0 <= y < |s.sends| ==> SameLine(s.sends[y], s'.sends[y])
  }

  lemma TypeExtends(s: System, c: nat, line: C.Line)
    requires Inv(s) && c < |s.clients| && C.LineFits(s.clients[c], line) && OnType(s, c, line).Some?
    ensures Extends(s, OnType(s, c, line).value)
  {
  }

  lemma DownExtends(s: System, k: nat)
    requires Inv(s) && k < |s.net| && s.net[k].Down?
    requires OnDown(s, Without(s.net, k), s.net[k].c, s.net[k].m).Some?
    ensures Extends(s, OnDown(s, Without(s.net, k), s.net[k].c, s.net[k].m).value)
  {
    RestIsOk(s, k);
  }

  lemma StepExtends(s: System, e: Event, g: Corrector)
    requires Inv(s) && Enabled(s, e) && Step(s, e, g).Some?
    ensures Extends(s, Step(s, e, g).value)
  {
    match e
    case Type(c, line) => TypeExtends(s, c, line);
    case Deliver(k, fl, now) =>
      if s.net[k].Down? {
        DownExtends(s, k);
      }
  }

  lemma NamedStays(clients: seq<C.Client>, clients': seq<C.Client>, sessions: seq<Option<R.Session>>)
    requires Named(clients, sessions) && NamesStay(clients, clients')
    ensures Named(clients', sessions)
  {
    forall i | 0 <= i < |sessions| && sessions[i].Some? ensures SessionNamed(clients', sessions[i].value) {
      assert SessionNamed(clients, sessions[i].value);
    }
  }

  // A login sets up a session under the name of the client it came from.
  lemma LoginNamed(clients: seq<C.Client>, server: R.Server, m: Message, now: int)
    requires R.Valid(server) && R.NameOk(m.pseudo) && Named(clients, server.clients)
    requires FromClient(m) && Origin(m) < |clients| && clients[Origin(m)].pseudo == m.pseudo
    ensures Named(clients, R.OnConnection(server, m, now).0.clients)
  {
    R.LoginVerdict(server, m, now);
    R.OnConnectionKeepsValid(server, m, now);
    var s' := R.OnConnection(server, m, now).0;
    forall i | 0 <= i < |s'.clients| && s'.clients[i].Some? ensures SessionNamed(clients, s'.clients[i].value) {
      var p := s'.clients[i].value.pseudo;
      assert p in s'.index && s'.index[p] == i;
      if R.Admissible(server, m, now) && p != m.pseudo {
        assert p in server.index && s'.clients[i] == server.clients[i];
      }
    }
  }

  lemma ServerNamed(s: System, m: Message, now: int, g: Corrector)
    requires Inv(s) && Named(s.clients, s.server.clients) && FromClient(m) && UpOk(s.clients, s.sends, m, Origin(m))
    ensures Named(s.clients, R.OnMsg(s.server, m, now, g).0.clients)
  {
    if R.NameOk(m.pseudo) {
      if IsChat(m) {
        ChatIsAnswered(s, m, now, g);
      } else {
        LoginNamed(s.clients, s.server, m, now);
      }
    }
  }

  lemma StepNamed(s: System, e: Event, g: Corrector)
    requires Inv(s) && Named(s.clients, s.server.clients) && Enabled(s, e) && Step(s, e, g).Some?
    ensures Named(Step(s, e, g).value.clients, Step(s, e, g).value.server.clients)
  {
    var s' := Step(s, e, g).value;
    StepExtends(s, e, g);
    if e.Deliver? && s.net[e.k].ToServer? {
      RestIsOk(s, e.k);
      ServerNamed(s, s.net[e.k].m, e.now, g);
    }
    NamedStays(s.clients, s'.clients, s'.server.clients);
  }

  // ---------- signatures ----------

  // The announcements of a line are signed as the line was.
  lemma AnswersSigned(s: System, m: Message, now: int, g: Corrector, k: nat)
    requires Inv(s) && FromClient(m) && UpOk(s.clients, s.sends, m, Origin(m))
    requires k < |R.OnMsg(s.server, m, now, g).1|
    ensures PacketSigned(s.clients, s.sends, FromServer(R.OnMsg(s.server, m, now, g).1[k]))
  {
    var ms := R.OnMsg(s.server, m, now, g).1;
    if Takes(m, g) {
      ChatIsAnswered(s, m, now, g);
      var a := R.Announcement(m, R.Corrected(g, m));
      R.BroadcastIs(s.server.clients, |s.server.clients|, a);
      if k > 0 {
        assert ms[k] in R.Broadcast(s.server.clients, |s.server.clients|, a);
      }
    } else {
      OtherAnswers(s.server, m, now, g);
    }
  }

  lemma OldByType(s: System, c: nat, line: C.Line, j: nat)
    requires c < |s.clients| && C.LineFits(s.clients[c], line) && OnType(s, c, line).Some?
    requires j < |OnType(s, c, line).value.net| && IsAnnouncement(OnType(s, c, line).value.net[j])
    ensures j < |s.net| && OnType(s, c, line).value.net[j] == s.net[j]
  {
  }

  // An announcement that the server did not make in this step was in flight before it.
  lemma OldAnnouncement(s: System, e: Event, g: Corrector, j: nat) returns (k: nat)
    requires Inv(s) && Enabled(s, e) && Step(s, e, g).Some? && j < |Step(s, e, g).value.net|
    requires IsAnnouncement(Step(s, e, g).value.net[j])
    requires e.Deliver? && s.net[e.k].ToServer? ==> j < |s.net| - 1
    ensures k < |s.net| && IsAnnouncement(s.net[k]) && s.net[k].m == Step(s, e, g).value.net[j].m
  {
    match e
    case Type(c, line) =>
      OldByType(s, c, line, j);
      k := j;
    case Deliver(i, fl, now) =>
      k := if j < i then j else if j < |s.net| - 1 then j + 1 else i;
  }

  // A packet after a step was there before, or is new.
  lemma PacketIsSigned(s: System, e: Event, g: Corrector, j: nat)
    requires NamesInv(s) && Enabled(s, e) && Step(s, e, g).Some? && j < |Step(s, e, g).value.net|
    requires IsAnnouncement(Step(s, e, g).value.net[j])
    ensures Signed(s.clients, s.sends, Step(s, e, g).value.net[j].m)
  {
    if e.Deliver? && s.net[e.k].ToServer? && j >= |s.net| - 1 {
      RestIsOk(s, e.k);
      AnswersSigned(s, s.net[e.k].m, e.now, g, j - (|s.net| - 1));
    } else {
      var k := OldAnnouncement(s, e, g, j);
      assert PacketSigned(s.clients, s.sends, s.net[k]);
    }
  }

  lemma StepSigned(s: System, e: Event, g: Corrector)
    requires NamesInv(s) && Enabled(s, e) && Step(s, e, g).Some?
    ensures AllSigned(Step(s, e, g).value)
  {
    var s' := Step(s, e, g).value;
    StepExtends(s, e, g);
    forall j | 0 <= j < |s'.net| ensures PacketSigned(s'.clients, s'.sends, s'.net[j]) {
      if IsAnnouncement(s'.net[j]) {
        PacketIsSigned(s, e, g, j);
      }
    }
  }

  // ---------- how often a client is told ----------

  // p tells client c of line x.
  predicate IsTold(p: Packet, c: nat, x: nat) {
    && IsAnnouncement(p) && p.m.serial == x
    && match p
       case FromServer(m) => m.socket == Socket(c)
       case Down(o, m) => o == c
       case _ => false
  }

  function ToldBy(c: nat, x: nat): Packet -> nat {
    (p: Packet) => if IsTold(p, c, x) then 1 else 0
  }

  // How many announcements of line x are on their way to client c.
  ghost function Told(net: seq<Packet>, c: nat, x: nat): nat {
    Sum(ToldBy(c, x), net)
  }

  ghost predicate DistinctSockets(sessions: seq<Option<R.Session>>) {
    forall i, j :: 0 <= i < j < |sessions| && sessions[i].Some? && sessions[j].Some? ==>
      sessions[i].value.socket != sessions[j].value.socket
  }

  lemma SocketsDiffer(clients: seq<C.Client>, server: R.Server)
    requires R.Valid(server) && Named(clients, server.clients)
    ensures DistinctSockets(server.clients)
  {
    forall i, j | 0 <= i < j < |server.clients| && server.clients[i].Some? && server.clients[j].Some?
      ensures server.clients[i].value.socket != server.clients[j].value.socket
    {
      assert SessionNamed(clients, server.clients[i].value) && SessionNamed(clients, server.clients[j].value);
    }
  }

  lemma NotConnectedTwice(sessions: seq<Option<R.Session>>, n: nat, socket: int)
    requires DistinctSockets(sessions) && 0 < n <= |sessions|
    requires sessions[n - 1].Some? && sessions[n - 1].value.socket == socket
    ensures !R.Connected(sessions, n - 1, socket)
  {
  }

  lemma ConnectedNext(sessions: seq<Option<R.Session>>, n: nat, socket: int)
    requires 0 < n <= |sessions|
    ensures R.Connected(sessions, n, socket) <==>
      (R.Connected(sessions, n - 1, socket)
       || (sessions[n - 1].Some? && sessions[n - 1].value.connected && sessions[n - 1].value.socket == socket))
  {
  }

  lemma {:induction false} BroadcastTells(sessions: seq<Option<R.Session>>, n: nat, a: Message, c: nat)
    requires DistinctSockets(sessions) && n <= |sessions| && a.kind == MSG_SERVER_CLIENT
    ensures Told(Answers(R.Broadcast(sessions, n, a)), c, a.serial) ==
      if R.Connected(sessions, n, Socket(c)) then 1 else 0
  {
    if n > 0 {
      BroadcastTells(sessions, n - 1, a, c);
      ConnectedNext(sessions, n, Socket(c));
      var rest := R.Broadcast(sessions, n - 1, a);
      if sessions[n - 1].Some? && sessions[n - 1].value.connected {
        var m := a.(socket := sessions[n - 1].value.socket);
        assert Answers(rest + [m]) == Answers(rest) + [FromServer(m)];
        SumOfJoin(ToldBy(c, a.serial), Answers(rest), [FromServer(m)]);
        SumOfOne(ToldBy(c, a.serial), FromServer(m));
        if m.socket == Socket(c) {
          NotConnectedTwice(sessions, n, Socket(c));
        }
      }
    } else {
      assert Answers(R.Broadcast(sessions, 0, a)) == [];
    }
  }

  // Taking m announces line x to client c.
  ghost predicate Announced(server: R.Server, m: Message, c: nat, x: nat) {
    m.serial == x && R.Connected(server.clients, |server.clients|, Socket(c))
  }

  // The answer to a line that is taken tells the clients with a connected session once each, and nobody
  // else.
  lemma AnswerTells(s: System, m: Message, now: int, g: Corrector, c: nat, x: nat)
    requires NamesInv(s) && Takes(m, g) && |m.pseudo| < MAX_NAME_LENGTH && m.flag == 0
    ensures Told(Answers(R.OnMsg(s.server, m, now, g).1), c, x) == if Announced(s.server, m, c, x) then 1 else 0
  {
    ChatIsAnswered(s, m, now, g);
    SocketsDiffer(s.clients, s.server);
    var text := R.Corrected(g, m);
    var ms := Announcements(s.server, m, text);
    AnswerSplits(s.server, m, R.Verdict(g, m), text);
    var ack := FromServer(R.PositiveAck(m));
    SumOfJoin(ToldBy(c, x), [ack], Answers(ms));
    SumOfOne(ToldBy(c, x), ack);
    AnnouncementsTell(s.server, m, text, c, x);
  }

  lemma AnnouncementsTell(server: R.Server, m: Message, text: seq<uint8>, c: nat, x: nat)
    requires DistinctSockets(server.clients) && m.flag == 0
    ensures Told(Answers(Announcements(server, m, text)), c, x) == if Announced(server, m, c, x) then 1 else 0
  {
    var ms := Announcements(server, m, text);
    var a := R.Announcement(m, text);
    if x == m.serial {
      BroadcastTells(server.clients, |server.clients|, a, c);
    } else {
      R.BroadcastIs(server.clients, |server.clients|, a);
      forall i | 0 <= i < |ms| ensures !IsTold(Answers(ms)[i], c, x) {
        assert ms[i] in ms;
      }
      SumOfNothing(ToldBy(c, x), Answers(ms));
    }
  }

  // Packet k gives way to out.
  lemma ToldAfter(net: seq<Packet>, k: nat, out: seq<Packet>, c: nat, x: nat)
    requires k < |net|
    ensures Told(Without(net, k) + out, c, x) + ToldBy(c, x)(net[k]) == Told(net, c, x) + Told(out, c, x)
  {
    SumWithout(ToldBy(c, x), net, k);
    SumOfJoin(ToldBy(c, x), Without(net, k), out);
  }

  lemma TellsNothing(out: seq<Packet>, c: nat, x: nat)
    requires forall i :: 0 <= i < |out| ==> !IsAnnouncement(out[i])
    ensures Told(out, c, x) == 0
  {
    SumOfNothing(ToldBy(c, x), out);
  }

  // Whether the event brings client c an announcement of line x.
  predicate Brings(s: System, e: Event, c: nat, x: nat)
    requires Enabled(s, e)
  {
    e.Deliver? && s.net[e.k].Down? && IsTold(s.net[e.k], c, x)
  }

  // Whether the event has a line x taken while client c's session is connected.
  ghost predicate TakesFor(s: System, e: Event, g: Corrector, c: nat, x: nat)
    requires Enabled(s, e)
  {
    && e.Deliver? && s.net[e.k].ToServer? && Takes(s.net[e.k].m, g)
    && Announced(s.server, s.net[e.k].m, c, x)
  }

  // What is told and left to tell grows exactly when the line is taken.
  ghost predicate TellsExactly(s: System, e: Event, g: Corrector, s': System, c: nat, x: nat)
    requires Enabled(s, e)
  {
    One(Brings(s, e, c, x)) + Told(s'.net, c, x) == Told(s.net, c, x) + One(TakesFor(s, e, g, c, x))
  }

  lemma TypeTells(s: System, e: Event, c: nat, x: nat, g: Corrector)
    requires Enabled(s, e) && e.Type? && Step(s, e, g).Some?
    ensures TellsExactly(s, e, g, Step(s, e, g).value, c, x)
  {
    var out := C.OnStdin(s.clients[e.c], e.line).out;
    TellsNothing(Ups(e.c, out), c, x);
    SumOfJoin(ToldBy(c, x), s.net, Ups(e.c, out));
  }

  lemma TakenTells(s: System, e: Event, c: nat, x: nat, g: Corrector)
    requires NamesInv(s) && Enabled(s, e) && e.Deliver? && s.net[e.k].ToServer?
    requires Takes(s.net[e.k].m, g) && |s.net[e.k].m.pseudo| < MAX_NAME_LENGTH
    ensures TellsExactly(s, e, g, Step(s, e, g).value, c, x)
  {
    var m := s.net[e.k].m;
    ToldAfter(s.net, e.k, Answers(R.OnMsg(s.server, m, e.now, g).1), c, x);
    assert PacketDefault(s.net[e.k]);
    AnswerTells(s, m, e.now, g, c, x);
  }

  lemma OtherTells(s: System, e: Event, c: nat, x: nat, g: Corrector)
    requires R.Valid(s.server) && Enabled(s, e) && e.Deliver? && s.net[e.k].ToServer? && !Takes(s.net[e.k].m, g)
    ensures TellsExactly(s, e, g, Step(s, e, g).value, c, x)
  {
    var m := s.net[e.k].m;
    var out := Answers(R.OnMsg(s.server, m, e.now, g).1);
    ToldAfter(s.net, e.k, out, c, x);
    OtherAnswers(s.server, m, e.now, g);
    TellsNothing(out, c, x);
  }

  lemma ServerTells(s: System, e: Event, c: nat, x: nat, g: Corrector)
    requires NamesInv(s) && Enabled(s, e) && e.Deliver? && s.net[e.k].ToServer?
    ensures TellsExactly(s, e, g, Step(s, e, g).value, c, x)
  {
    RestIsOk(s, e.k);
    if Takes(s.net[e.k].m, g) {
      TakenTells(s, e, c, x, g);
    } else {
      OtherTells(s, e, c, x, g);
    }
  }

  // The other deliveries pass one packet on, or turn it into requests of a client.
  lemma PassTells(s: System, e: Event, c: nat, x: nat, g: Corrector, out: seq<Packet>)
    requires Enabled(s, e) && e.Deliver? && !s.net[e.k].ToServer? && Step(s, e, g).Some?
    requires Step(s, e, g).value.net == Without(s.net, e.k) + out
    requires if s.net[e.k].FromServer? && out != [] then
        out == [Down(s.net[e.k].m.socket - FIRST_SOCKET, s.net[e.k].m)] && FromClient(s.net[e.k].m)
      else if s.net[e.k].FromServer? then !IsAnnouncement(s.net[e.k])
      else forall i :: 0 <= i < |out| ==> !IsAnnouncement(out[i])
    ensures TellsExactly(s, e, g, Step(s, e, g).value, c, x)
  {
    ToldAfter(s.net, e.k, out, c, x);
    if s.net[e.k].FromServer? && out != [] {
      SumOfOne(ToldBy(c, x), out[0]);
    } else {
      TellsNothing(out, c, x);
    }
  }

  lemma UpTells(s: System, e: Event, c: nat, x: nat, g: Corrector)
    requires Enabled(s, e) && e.Deliver? && s.net[e.k].Up? && Step(s, e, g).Some?
    ensures TellsExactly(s, e, g, Step(s, e, g).value, c, x)
  {
    var rest, p := Without(s.net, e.k), s.net[e.k];
    assert rest + [] == rest;
    var r := OnClientReceived(p.m.(socket := Socket(p.c)), e.fl);
    PassTells(s, e, c, x, g, if r.Some? then [ToServer(r.value)] else []);
  }

  // The proxy passes every announcement on: it has a body and a client behind its socket.
  lemma AnnouncementPasses(s: System, k: nat)
    requires NamesInv(s) && k < |s.net| && s.net[k].FromServer? && IsAnnouncement(s.net[k])
    ensures OnFrom(s, Without(s.net, k), s.net[k].m).net ==
      Without(s.net, k) + [Down(s.net[k].m.socket - FIRST_SOCKET, s.net[k].m)]
    ensures FromClient(s.net[k].m)
  {
    RestIsOk(s, k);
    assert PacketSigned(s.clients, s.sends, s.net[k]);
  }

  lemma FromTells(s: System, e: Event, c: nat, x: nat, g: Corrector)
    requires NamesInv(s) && Enabled(s, e) && e.Deliver? && s.net[e.k].FromServer? && Step(s, e, g).Some?
    ensures TellsExactly(s, e, g, Step(s, e, g).value, c, x)
  {
    var rest, m := Without(s.net, e.k), s.net[e.k].m;
    assert rest + [] == rest;
    RestIsOk(s, e.k);
    if IsAnnouncement(s.net[e.k]) {
      AnnouncementPasses(s, e.k);
    }
    PassTells(s, e, c, x, g, if OnFrom(s, rest, m).net == rest then [] else [Down(m.socket - FIRST_SOCKET, m)]);
  }

  lemma DownTells(s: System, e: Event, c: nat, x: nat, g: Corrector)
    requires Enabled(s, e) && e.Deliver? && s.net[e.k].Down? && Step(s, e, g).Some?
    ensures TellsExactly(s, e, g, Step(s, e, g).value, c, x)
  {
    var rest, p := Without(s.net, e.k), s.net[e.k];
    assert rest + [] == rest;
    PassTells(s, e, c, x, g, if p.c < |s.clients| then Ups(p.c, C.OnMsg(s.clients[p.c], p.m).out) else []);
  }

  lemma StepTells(s: System, e: Event, c: nat, x: nat, g: Corrector)
    requires NamesInv(s) && Enabled(s, e) && Step(s, e, g).Some?
    ensures TellsExactly(s, e, g, Step(s, e, g).value, c, x)
  {
    match e
    case Type(o, line) => TypeTells(s, e, c, x, g);
    case Deliver(k, fl, now) =>
      match s.net[k]
      case ToServer(m) => ServerTells(s, e, c, x, g);
      case Up(o, m) => UpTells(s, e, c, x, g);
      case FromServer(m) => FromTells(s, e, c, x, g);
      case Down(o, m) => DownTells(s, e, c, x, g);
  }

  // ---------- runs ----------

  lemma StepKeepsNames(s: System, e: Event, g: Corrector)
    requires NamesInv(s) && Enabled(s, e)
    ensures Step(s, e, g).Some? && NamesInv(Step(s, e, g).value)
  {
    StepKeeps(s, e, g);
    StepNamed(s, e, g);
    StepSigned(s, e, g);
    StepKeepsDefault(s, e, g);
  }

  // How many announcements of line x a run brings client c.
  function Brought(s: System, es: seq<Event>, g: Corrector, c: nat, x: nat): nat
    requires Fits(s, es, g)
    decreases |es|
  {
    if es == [] then 0
    else
      var rest := if Step(s, es[0], g).Some? then Brought(Step(s, es[0], g).value, es[1..], g, c, x) else 0;
      rest + if Brings(s, es[0], c, x) then 1 else 0
  }

  // How often line x is taken in a run while client c's session is connected.
  ghost function TakenFor(s: System, es: seq<Event>, g: Corrector, c: nat, x: nat): nat
    requires Fits(s, es, g)
    decreases |es|
  {
    if es == [] then 0
    else
      var rest := if Step(s, es[0], g).Some? then TakenFor(Step(s, es[0], g).value, es[1..], g, c, x) else 0;
      rest + One(TakesFor(s, es[0], g, c, x))
  }

  lemma {:induction false} RunTells(s: System, es: seq<Event>, g: Corrector, c: nat, x: nat)
    requires NamesInv(s) && Fits(s, es, g)
    ensures Run(s, es, g).Some? && NamesInv(Run(s, es, g).value)
    ensures Brought(s, es, g, c, x) + Told(Run(s, es, g).value.net, c, x) ==
      Told(s.net, c, x) + TakenFor(s, es, g, c, x)
    decreases |es|
  {
    if es != [] {
      StepKeepsNames(s, es[0], g);
      StepTells(s, es[0], c, x, g);
      RunTells(Step(s, es[0], g).value, es[1..], g, c, x);
    }
  }

  lemma ServerTakes(s: System, k: nat, now: int, g: Corrector, x: nat)
    requires k < |s.net| && s.net[k].ToServer?
    ensures Serials(OnServer(s, Without(s.net, k), s.net[k].m, now, g).taken)[x] ==
      Serials(s.taken)[x] + One(Takes(s.net[k].m, g) && s.net[k].m.serial == x)
  {
    var m := s.net[k].m;
    SerialsOfMore(s.taken, Taken(m.serial, R.Corrected(g, m), R.Verdict(g, m) != 0));
  }

  lemma StepTakes(s: System, e: Event, g: Corrector, c: nat, x: nat)
    requires Enabled(s, e) && Step(s, e, g).Some?
    ensures One(TakesFor(s, e, g, c, x)) + Serials(s.taken)[x] <= Serials(Step(s, e, g).value.taken)[x]
  {
    if e.Deliver? && s.net[e.k].ToServer? {
      ServerTakes(s, e.k, e.now, g, x);
    } else {
      assert Step(s, e, g).value.taken == s.taken;
    }
  }

  lemma {:induction false} RunTakes(s: System, es: seq<Event>, g: Corrector, c: nat, x: nat)
    requires Inv(s) && Fits(s, es, g) && Run(s, es, g).Some?
    ensures TakenFor(s, es, g, c, x) + Serials(s.taken)[x] <= Serials(Run(s, es, g).value.taken)[x]
    decreases |es|
  {
    if es != [] {
      StepKeeps(s, es[0], g);
      StepTakes(s, es[0], g, c, x);
      RunTakes(Step(s, es[0], g).value, es[1..], g, c, x);
    }
  }

  lemma NewSystemIsNamed(n: nat, codes: map<string, seq<uint8>>)
    ensures NamesInv(NewSystem(n, codes))
  {
    NewSystemIsFine(n, codes);
    NewSystemIsDefault(n, codes);
  }

  /** Over any run from the start the announcements of a line that a client was brought, with those still
      on their way, are exactly as many as the times the line was taken while the client's session was
      connected: one or none. */
  lemma ToldExactly(n: nat, codes: map<string, seq<uint8>>, es: seq<Event>, g: Corrector, c: nat, x: nat)
    requires Fits(NewSystem(n, codes), es, g)
    ensures Run(NewSystem(n, codes), es, g).Some?
    ensures Brought(NewSystem(n, codes), es, g, c, x) + Told(Run(NewSystem(n, codes), es, g).value.net, c, x)
      == TakenFor(NewSystem(n, codes), es, g, c, x) <= 1
  {
    var s0 := NewSystem(n, codes);
    NewSystemIsNamed(n, codes);
    RunTells(s0, es, g, c, x);
    RunTakes(s0, es, g, c, x);
    var s := Run(s0, es, g).value;
    assert Conserved(s, x);
  }

  /** So when nothing is in flight any more, each client whose session was connected when a line
      was taken has been brought it exactly once, and any other client never. */
  lemma AtRestAllAreTold(n: nat, codes: map<string, seq<uint8>>, es: seq<Event>, g: Corrector, c: nat, x: nat)
    requires Fits(NewSystem(n, codes), es, g) && Run(NewSystem(n, codes), es, g).Some?
    requires Run(NewSystem(n, codes), es, g).value.net == []
    ensures Brought(NewSystem(n, codes), es, g, c, x) == TakenFor(NewSystem(n, codes), es, g, c, x) <= 1
  {
    ToldExactly(n, codes, es, g, c, x);
  }

  lemma {:induction false} ToldShows(net: seq<Packet>, j: nat, k: nat, c: nat, x: nat)
    requires j < k < |net| && IsTold(net[j], c, x) && IsTold(net[k], c, x)
    ensures Told(net, c, x) >= 2
  {
    SumWithout(ToldBy(c, x), net, k);
    assert Without(net, k)[j] == net[j];
    SumWithout(ToldBy(c, x), Without(net, k), j);
  }

  /** In every state a run leads to, at most one announcement of a line is on its way to a client, and
      the name it bears is that of the client that typed the line. */
  lemma AnnouncedOnceAndSigned(s: System, c: nat, x: nat)
    requires Reachable(s)
    ensures forall j, k :: 0 <= j < k < |s.net| && IsTold(s.net[j], c, x) ==> !IsTold(s.net[k], c, x)
    ensures forall k :: 0 <= k < |s.net| && IsAnnouncement(s.net[k]) ==> Signed(s.clients, s.sends, s.net[k].m)
  {
    var n: nat, codes, es, g :| Leads(n, codes, es, g, s);
    ToldExactly(n, codes, es, g, c, x);
    NewSystemIsNamed(n, codes);
    RunTells(NewSystem(n, codes), es, g, c, x);
    forall j, k | 0 <= j < k < |s.net| && IsTold(s.net[j], c, x) ensures !IsTold(s.net[k], c, x) {
      if IsTold(s.net[k], c, x) {
        ToldShows(s.net, j, k, c, x);
      }
    }
    forall k | 0 <= k < |s.net| && IsAnnouncement(s.net[k]) ensures Signed(s.clients, s.sends, s.net[k].m) {
      assert PacketSigned(s.clients, s.sends, s.net[k]);
    }
  }
}
