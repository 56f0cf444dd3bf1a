/**
 Logins: a client makes one request, which is on its way or answered, and a client whose request is not
 granted waits in every continuation.
 */
module Waiting {
  import opened ChatMessages
  import opened MessageCoding
  import C = ClientTable
  import R = Registry
  import opened Proxy
  import opened ChatSystem
  import opened Delivery
  import opened DeliverySteps
  import opened SystemRuns

  // p is client c's request to log in, or the confirmation on its way back.
  predicate IsLoginOf(p: Packet, c: nat) {
    match p
    case Up(o, m) => o == c && m.kind == MSG_CONNECTION_CLIENT
    case ToServer(m) => m.socket == Socket(c) && m.kind == MSG_CONNECTION_CLIENT
    case FromServer(m) => m.socket == Socket(c) && m.kind == MSG_WELL_CONNECTED
    case Down(o, m) => o == c && m.kind == MSG_WELL_CONNECTED
  }

  function LoginBy(c: nat): Packet -> nat {
    (p: Packet) => if IsLoginOf(p, c) then 1 else 0
  }

  ghost function Pending(net: seq<Packet>, c: nat): nat {
    Sum(LoginBy(c), net)
  }

  // The event is client c's request, or the confirmation of it.
  predicate LogsIn(s: System, e: Event, c: nat)
    requires Enabled(s, e)
  {
    e.Type? && e.c == c && C.IsLogin(s.clients[c], e.line)
  }

  predicate Confirms(s: System, e: Event, c: nat)
    requires Enabled(s, e)
  {
    e.Deliver? && s.net[e.k].Down? && IsLoginOf(s.net[e.k], c)
  }

  predicate IsWaiting(s: System, c: nat) {
    c < |s.clients| && s.clients[c].waiting
  }

  // At most one request is pending, and none unless the client waits.
  ghost predicate LoginOnce(s: System, c: nat) {
    c < |s.clients| && Pending(s.net, c) <= One(s.clients[c].waiting)
  }

  // ---------- what a step does to what is pending ----------

  lemma PendingAfter(net: seq<Packet>, k: nat, out: seq<Packet>, c: nat)
    requires k < |net|
    ensures Pending(Without(net, k) + out, c) + One(IsLoginOf(net[k], c)) == Pending(net, c) + Pending(out, c)
  {
    SumWithout(LoginBy(c), net, k);
    SumOfJoin(LoginBy(c), Without(net, k), out);
  }

  lemma PendingNothing(out: seq<Packet>, c: nat)
    requires forall i :: 0 <= i < |out| ==> !IsLoginOf(out[i], c)
    ensures Pending(out, c) == 0
  {
    SumOfNothing(LoginBy(c), out);
  }

  ghost predicate PendsNoMore(s: System, e: Event, s': System, c: nat)
    requires Enabled(s, e)
  {
    Pending(s'.net, c) + One(Confirms(s, e, c)) <= Pending(s.net, c) + One(LogsIn(s, e, c))
  }

  lemma TypePends(s: System, e: Event, g: Corrector, c: nat)
    requires Enabled(s, e) && e.Type? && Step(s, e, g).Some?
    ensures PendsNoMore(s, e, Step(s, e, g).value, c)
  {
    var out := C.OnStdin(s.clients[e.c], e.line).out;
    SumOfJoin(LoginBy(c), s.net, Ups(e.c, out));
    if LogsIn(s, e, c) {
      assert Ups(e.c, out) == [Up(e.c, out[0])];
      SumOfOne(LoginBy(c), Up(e.c, out[0]));
    } else {
      PendingNothing(Ups(e.c, out), c);
    }
  }

  lemma UpPends(s: System, e: Event, g: Corrector, c: nat)
    requires Inv(s) && Enabled(s, e) && e.Deliver? && s.net[e.k].Up?
    ensures PendsNoMore(s, e, Step(s, e, g).value, c)
  {
    var p := s.net[e.k];
    RestIsOk(s, e.k);
    RequestPasses(s.clients, s.sends, p.c, p.m, e.fl);
    var q := ToServer(OnClientReceived(p.m.(socket := Socket(p.c)), e.fl).value);
    PendingAfter(s.net, e.k, [q], c);
    SumOfOne(LoginBy(c), q);
  }

  lemma FromPends(s: System, e: Event, g: Corrector, c: nat)
    requires Inv(s) && Enabled(s, e) && e.Deliver? && s.net[e.k].FromServer?
    ensures PendsNoMore(s, e, Step(s, e, g).value, c)
  {
    var rest, m := Without(s.net, e.k), s.net[e.k].m;
    assert rest + [] == rest;
    RestIsOk(s, e.k);
    PendingAfter(s.net, e.k, [Down(m.socket - FIRST_SOCKET, m)], c);
    SumOfOne(LoginBy(c), Down(m.socket - FIRST_SOCKET, m));
    PendingAfter(s.net, e.k, [], c);
  }

  lemma DownPends(s: System, e: Event, g: Corrector, c: nat)
    requires Inv(s) && Enabled(s, e) && e.Deliver? && s.net[e.k].Down?
    ensures Step(s, e, g).Some? && PendsNoMore(s, e, Step(s, e, g).value, c)
  {
    StepKeeps(s, e, g);
    RestIsOk(s, e.k);
    var p := s.net[e.k];
    var out := Ups(p.c, C.OnMsg(s.clients[p.c], p.m).out);
    if IsAck(p.m) {
      AckFindsSlot(s, e.k);
    }
    PendingAfter(s.net, e.k, out, c);
    PendingNothing(out, c);
  }

  // The answer to a request, a confirmation or not.
  ghost predicate Grants(server: R.Server, m: Message, now: int)
    requires R.Valid(server)
  {
    R.NameOk(m.pseudo) && R.Admissible(server, m, now)
  }

  lemma RequestAnswer(server: R.Server, m: Message, now: int, g: Corrector, c: nat)
    requires R.Valid(server) && m.kind == MSG_CONNECTION_CLIENT && |m.pseudo| < MAX_NAME_LENGTH
    ensures Pending(Answers(R.OnMsg(server, m, now, g).1), c) ==
      One(m.socket == Socket(c) && Grants(server, m, now))
  {
    var ms := R.OnMsg(server, m, now, g).1;
    if R.NameOk(m.pseudo) {
      R.LoginVerdict(server, m, now);
      assert Answers(ms) == [FromServer(ms[0])];
      SumOfOne(LoginBy(c), FromServer(ms[0]));
    } else {
      assert Answers(ms) == [];
    }
  }

  lemma ChatAnswer(server: R.Server, m: Message, now: int, g: Corrector, c: nat)
    requires R.Valid(server) && IsChat(m)
    ensures Pending(Answers(R.OnMsg(server, m, now, g).1), c) == 0
  {
    var ms := R.OnMsg(server, m, now, g).1;
    R.NoBadValue(server, m.pseudo);
    forall i | 0 <= i < |ms| ensures ms[i].kind != MSG_WELL_CONNECTED {
      ChatAnswerKind(server, m, now, g, i);
    }
    PendingNothing(Answers(ms), c);
  }

  lemma ChatAnswerKind(server: R.Server, m: Message, now: int, g: Corrector, i: nat)
    requires R.Valid(server) && IsChat(m) && i < |R.OnMsg(server, m, now, g).1|
    ensures R.OnMsg(server, m, now, g).1[i].kind != MSG_WELL_CONNECTED
  {
    var ms := R.OnMsg(server, m, now, g).1;
    R.NoBadValue(server, m.pseudo);
    if i > 0 {
      var a := R.Announcement(m, R.Corrected(g, m));
      R.BroadcastIs(server.clients, |server.clients|, a);
      assert ms[i] in R.Broadcast(server.clients, |server.clients|, a);
    }
  }

  lemma ServerPends(s: System, e: Event, g: Corrector, c: nat)
    requires Inv(s) && Enabled(s, e) && e.Deliver? && s.net[e.k].ToServer?
    ensures PendsNoMore(s, e, Step(s, e, g).value, c)
  {
    var m := s.net[e.k].m;
    RestIsOk(s, e.k);
    PendingAfter(s.net, e.k, Answers(R.OnMsg(s.server, m, e.now, g).1), c);
    if IsChat(m) {
      ChatAnswer(s.server, m, e.now, g, c);
    } else {
      RequestAnswer(s.server, m, e.now, g, c);
    }
  }

  lemma StepPends(s: System, e: Event, g: Corrector, c: nat)
    requires Inv(s) && Enabled(s, e)
    ensures Step(s, e, g).Some? && PendsNoMore(s, e, Step(s, e, g).value, c)
  {
    StepKeeps(s, e, g);
    match e
    case Type(o, line) => TypePends(s, e, g, c);
    case Deliver(k, fl, now) =>
      match s.net[k]
      case Up(o, m) => UpPends(s, e, g, c);
      case ToServer(m) => ServerPends(s, e, g, c);
      case FromServer(m) => FromPends(s, e, g, c);
      case Down(o, m) => DownPends(s, e, g, c);
  }

  // ---------- waiting ----------

  lemma StepWaits(s: System, e: Event, g: Corrector, c: nat)
    requires Inv(s) && Enabled(s, e) && Step(s, e, g).Some? && c < |s.clients|
    ensures c < |Step(s, e, g).value.clients|
    ensures LogsIn(s, e, c) ==> !IsWaiting(s, c) && IsWaiting(Step(s, e, g).value, c)
    ensures IsWaiting(s, c) && !Confirms(s, e, c) ==> IsWaiting(Step(s, e, g).value, c)
  {
    assert ClientOk(s.sends, c, s.clients[c]);
    if e.Deliver? {
      RestIsOk(s, e.k);
    }
  }

  lemma StepKeepsOnce(s: System, e: Event, g: Corrector, c: nat)
    requires Inv(s) && LoginOnce(s, c) && Enabled(s, e)
    ensures Step(s, e, g).Some? && LoginOnce(Step(s, e, g).value, c)
  {
    StepPends(s, e, g, c);
    StepWaits(s, e, g, c);
  }

  lemma {:induction false} RunKeepsOnce(s: System, es: seq<Event>, g: Corrector, c: nat)
    requires Inv(s) && LoginOnce(s, c) && Fits(s, es, g)
    ensures Run(s, es, g).Some? && LoginOnce(Run(s, es, g).value, c)
    decreases |es|
  {
    if es != [] {
      StepKeepsOnce(s, es[0], g, c);
      StepKeeps(s, es[0], g);
      RunKeepsOnce(Step(s, es[0], g).value, es[1..], g, c);
    }
  }

  lemma ReachableLogsInOnce(s: System, c: nat)
    requires Reachable(s) && c < |s.clients|
    ensures LoginOnce(s, c)
  {
    var n: nat, codes, es, g :| Leads(n, codes, es, g, s);
    var s0 := NewSystem(n, codes);
    NewSystemIsFine(n, codes);
    RunKeepsCount(s0, es, g);
    RunKeepsOnce(s0, es, g, c);
  }

  lemma StepKeepsCount(s: System, e: Event, g: Corrector)
    requires Enabled(s, e) && Step(s, e, g).Some?
    ensures |Step(s, e, g).value.clients| == |s.clients|
  {
  }

  lemma {:induction false} RunKeepsCount(s: System, es: seq<Event>, g: Corrector)
    requires Inv(s) && Fits(s, es, g)
    ensures Run(s, es, g).Some? && |Run(s, es, g).value.clients| == |s.clients|
    decreases |es|
  {
    if es != [] {
      StepKeeps(s, es[0], g);
      StepKeepsCount(s, es[0], g);
      RunKeepsCount(Step(s, es[0], g).value, es[1..], g);
    }
  }

  // The client waits and nothing is pending.
  ghost predicate Stranded(s: System, c: nat) {
    Inv(s) && IsWaiting(s, c) && Pending(s.net, c) == 0
  }

  lemma ConfirmShows(s: System, e: Event, c: nat)
    requires Enabled(s, e) && Confirms(s, e, c)
    ensures Pending(s.net, c) >= 1
  {
    SumWithout(LoginBy(c), s.net, e.k);
  }

  lemma {:induction false} StrandedStays(s: System, es: seq<Event>, g: Corrector, c: nat)
    requires Stranded(s, c) && Fits(s, es, g)
    ensures Run(s, es, g).Some? && Stranded(Run(s, es, g).value, c)
    decreases |es|
  {
    if es != [] {
      StepKeeps(s, es[0], g);
      StepPends(s, es[0], g, c);
      StepWaits(s, es[0], g, c);
      if Confirms(s, es[0], c) {
        ConfirmShows(s, es[0], c);
      }
      StrandedStays(Step(s, es[0], g).value, es[1..], g, c);
    }
  }

  // The server gets client c's request in this step and does not grant it.
  ghost predicate Denies(s: System, e: Event, c: nat)
    requires Inv(s) && Enabled(s, e)
  {
    && e.Deliver? && s.net[e.k].ToServer? && IsLoginOf(s.net[e.k], c)
    && !Grants(s.server, s.net[e.k].m, e.now)
  }

  lemma DenialStrands(s: System, e: Event, g: Corrector, c: nat)
    requires Inv(s) && LoginOnce(s, c) && Enabled(s, e) && Denies(s, e, c)
    ensures Step(s, e, g).Some? && Stranded(Step(s, e, g).value, c)
  {
    var m := s.net[e.k].m;
    StepKeeps(s, e, g);
    RestIsOk(s, e.k);
    PendingAfter(s.net, e.k, Answers(R.OnMsg(s.server, m, e.now, g).1), c);
    RequestAnswer(s.server, m, e.now, g, c);
    StepWaits(s, e, g, c);
  }

  /** A client whose login is refused, or ignored for its short name, waits from then on in every run:
      no answer reaches it and it never asks again. */
  lemma DeniedWaitsForever(s: System, e: Event, es: seq<Event>, g: Corrector, c: nat)
    requires Reachable(s) && Inv(s) && c < |s.clients| && Enabled(s, e) && Denies(s, e, c)
    requires Step(s, e, g).Some? && Fits(Step(s, e, g).value, es, g)
    ensures Run(Step(s, e, g).value, es, g).Some?
    ensures IsWaiting(Run(Step(s, e, g).value, es, g).value, c)
  {
    ReachableLogsInOnce(s, c);
    DenialStrands(s, e, g, c);
    StrandedStays(Step(s, e, g).value, es, g, c);
  }
}
