/**
 Logging in across client, proxy and server: a request let in connects its client, in any state of the
 system; what lets it in is said in numbers.
 */
module Logins {
  import opened Bits
  import opened ChatMessages
  import opened MessageCoding
  import C = ClientTable
  import R = Registry
  import opened Proxy
  import opened ChatSystem
  import opened Delivery
  import opened DeliverySteps
  import opened SystemRuns

  // ---------- the packet on top ----------

  function TakeLast(s: System, fl: seq<Flips>, now: int): Event
    requires s.net != []
  {
    Deliver(|s.net| - 1, fl, now)
  }

  lemma LastLeaves(net: seq<Packet>, p: Packet)
    ensures Without(net + [p], |net|) == net
  {
  }

  lemma TailOfJoin(a: seq<Event>, b: seq<Event>)
    requires a != []
    ensures (a + b)[0] == a[0] && (a + b)[1..] == a[1..] + b
  {
  }

  lemma {:induction false} RunsJoin(s: System, a: seq<Event>, b: seq<Event>, s1: System, g: Corrector)
    requires Fits(s, a, g) && Run(s, a, g) == Some(s1) && Fits(s1, b, g)
    ensures Fits(s, a + b, g) && Run(s, a + b, g) == Run(s1, b, g)
    decreases |a|
  {
    if a == [] {
      assert a + b == b;
    } else {
      TailOfJoin(a, b);
      RunsJoin(Step(s, a[0], g).value, a[1..], b, s1, g);
    }
  }

  lemma RunOfTwo(s: System, e1: Event, s1: System, e2: Event, s2: System, g: Corrector)
    requires Enabled(s, e1) && Step(s, e1, g) == Some(s1) && Enabled(s1, e2) && Step(s1, e2, g) == Some(s2)
    ensures Fits(s, [e1, e2], g) && Run(s, [e1, e2], g) == Some(s2)
  {
    RunOfMore(s1, e2, [], g);
    RunOfMore(s, e1, [e2] + [], g);
    assert [e1] + ([e2] + []) == [e1, e2];
  }

  // ---------- a request on its way ----------

  // What the server lets in at time now: a name of four letters or more with its own code, if one is stored,
  // that has no session while fewer than 196 names do, or one that is not connected or thirty seconds old.
  predicate LetIn(server: R.Server, l: C.Line, now: int)
    requires l.text in server.index ==> server.index[l.text] < |server.clients|
    requires l.text in server.index ==> server.clients[server.index[l.text]].Some?
  {
    && |l.text| >= 4 && (l.text in server.codes ==> server.codes[l.text] == l.code)
    && if l.text in server.index then
         var held := server.clients[server.index[l.text]].value;
         !held.connected || now - held.lastActivity >= 30
       else |server.index| < 196
  }

  ghost predicate AboutToAsk(s: System, c: nat, l: C.Line) {
    Inv(s) && Enabled(s, Type(c, l)) && C.IsLogin(s.clients[c], l)
  }

  // The request, as the proxy passes it on.
  function RequestFrom(c: nat, l: C.Line): Message {
    C.Request(l.text, l.code).(socket := Socket(c))
  }

  // The client that waits for the answer, and the client that got it.
  function Asked(cl: C.Client, l: C.Line): C.Client
    requires |cl.slots| > 0
  {
    cl.(slots := cl.slots[0 := C.Request(l.text, l.code)], nb := cl.nb + 1, pseudo := l.text, waiting := true)
  }

  lemma Requests(s: System, c: nat, l: C.Line, g: Corrector) returns (s': System)
    requires AboutToAsk(s, c, l)
    ensures Step(s, Type(c, l), g) == Some(s') && Inv(s') && |s.clients[c].slots| > 0
    ensures s' == s.(clients := s.clients[c := Asked(s.clients[c], l)],
                     net := s.net + [Up(c, C.Request(l.text, l.code))])
  {
    StepKeeps(s, Type(c, l), g);
    s' := Step(s, Type(c, l), g).value;
    assert ClientOk(s.sends, c, s.clients[c]);
    assert Ups(c, [C.Request(l.text, l.code)]) == [Up(c, C.Request(l.text, l.code))];
  }

  lemma RequestArrives(s: System, net: seq<Packet>, c: nat, l: C.Line, g: Corrector) returns (s': System)
    requires Inv(s) && s.net == net + [Up(c, C.Request(l.text, l.code))]
    ensures Enabled(s, TakeLast(s, [], 0)) && Step(s, TakeLast(s, [], 0), g) == Some(s') && Inv(s')
    ensures s' == s.(net := net + [ToServer(RequestFrom(c, l))])
  {
    var p := s.net[|net|];
    assert p == Up(c, C.Request(l.text, l.code));
    StepKeeps(s, TakeLast(s, [], 0), g);
    LastLeaves(net, p);
    s' := Step(s, TakeLast(s, [], 0), g).value;
  }

  lemma RequestIsAnswered(s: System, net: seq<Packet>, c: nat, l: C.Line, now: int, g: Corrector) returns (s': System)
    requires Inv(s) && s.net == net + [ToServer(RequestFrom(c, l))] && R.NameOk(l.text)
    ensures Enabled(s, TakeLast(s, [], now)) && Step(s, TakeLast(s, [], now), g) == Some(s') && Inv(s')
    ensures var m := RequestFrom(c, l);
      s' == s.(net := net + [FromServer(R.Reply(m, if LetIn(s.server, l, now) then 8 else 4))],
               server := R.OnConnection(s.server, m, now).0)
  {
    var m := RequestFrom(c, l);
    var p := s.net[|net|];
    assert p == ToServer(m);
    StepKeeps(s, TakeLast(s, [], now), g);
    LastLeaves(net, p);
    R.LoginVerdict(s.server, m, now);
    R.SomeEmptyIff(s.server);
    var kind := if LetIn(s.server, l, now) then 8 else 4;
    assert Answers([R.Reply(m, kind)]) == [FromServer(R.Reply(m, kind))];
    s' := Step(s, TakeLast(s, [], now), g).value;
  }

  lemma ConfirmationPasses(s: System, net: seq<Packet>, c: nat, m: Message, g: Corrector) returns (s': System)
    requires Inv(s) && c < |s.clients| && s.net == net + [FromServer(m)] && m.kind == 8 && m.socket == Socket(c)
    ensures Enabled(s, TakeLast(s, [], 0)) && Step(s, TakeLast(s, [], 0), g) == Some(s') && Inv(s')
    ensures s' == s.(net := net + [Down(c, m)])
  {
    var p := s.net[|net|];
    assert p == FromServer(m);
    StepKeeps(s, TakeLast(s, [], 0), g);
    LastLeaves(net, p);
    s' := Step(s, TakeLast(s, [], 0), g).value;
  }

  lemma ClientConnects(s: System, net: seq<Packet>, c: nat, m: Message, g: Corrector) returns (s': System)
    requires Inv(s) && c < |s.clients| && s.net == net + [Down(c, m)] && m.kind == 8 && s.clients[c].waiting
    ensures Enabled(s, TakeLast(s, [], 0)) && Step(s, TakeLast(s, [], 0), g) == Some(s') && Inv(s')
    ensures s' == s.(net := net, clients := s.clients[c := s.clients[c].(connected := true, waiting := false)])
  {
    var p := s.net[|net|];
    assert p == Down(c, m);
    StepKeeps(s, TakeLast(s, [], 0), g);
    LastLeaves(net, p);
    assert Ups(c, []) == [];
    assert net + [] == net;
    s' := Step(s, TakeLast(s, [], 0), g).value;
  }

  // ---------- the whole exchange ----------

  // The request is typed, passed on and answered.
  ghost predicate Exchanged(s: System, c: nat, l: C.Line, now: int, s': System)
    requires AboutToAsk(s, c, l)
  {
    && |s.clients[c].slots| > 0 && R.NameOk(l.text)
    && s' == s.(clients := s.clients[c := Asked(s.clients[c], l)],
                server := R.OnConnection(s.server, RequestFrom(c, l), now).0,
                net := s.net + [FromServer(R.Reply(RequestFrom(c, l), if LetIn(s.server, l, now) then 8 else 4))])
  }

  /** From any state a client that types a name of four letters or more gets its request through the proxy to
      the server, which at that time answers with a confirmation exactly when it lets the name in. */
  lemma RequestMeetsVerdict(s: System, c: nat, l: C.Line, now: int, g: Corrector) returns (es: seq<Event>, s': System)
    requires AboutToAsk(s, c, l) && |l.text| >= 4
    ensures StartsWith(es, Type(c, l)) && Fits(s, es, g) && Run(s, es, g) == Some(s')
    ensures Inv(s') && Exchanged(s, c, l, now, s')
  {
    var s1 := Requests(s, c, l, g);
    var s2 := RequestArrives(s1, s.net, c, l, g);
    s' := RequestIsAnswered(s2, s.net, c, l, now, g);
    RunOfTwo(s1, TakeLast(s1, [], 0), s2, TakeLast(s2, [], now), s', g);
    RunOfMore(s, Type(c, l), [TakeLast(s1, [], 0), TakeLast(s2, [], now)], g);
    es := [Type(c, l)] + [TakeLast(s1, [], 0), TakeLast(s2, [], now)];
  }

  // The client is connected under the name, and nothing else has changed but its session.
  ghost predicate Connects(s: System, c: nat, l: C.Line, now: int, s': System)
    requires AboutToAsk(s, c, l)
  {
    && |s.clients[c].slots| > 0
    && s'.clients == s.clients[c := Asked(s.clients[c], l).(connected := true, waiting := false)]
    && s'.net == s.net && s'.sends == s.sends && s'.taken == s.taken
    && l.text in s'.server.index && s'.server.index[l.text] < |s'.server.clients|
    && s'.server.clients[s'.server.index[l.text]] == Some(R.Session(true, l.text, now, c + 2))
    && s'.server.codes == s.server.codes[l.text := l.code]
  }

  /** A request let in is confirmed, and the confirmation connects its client: so it is for a name stored
      with the client's own code that has no session, while the server has a slot. */
  lemma LoginCompletes(s: System, c: nat, l: C.Line, now: int, g: Corrector) returns (es: seq<Event>, s': System)
    requires AboutToAsk(s, c, l) && R.Valid(s.server) && LetIn(s.server, l, now)
    ensures StartsWith(es, Type(c, l)) && Fits(s, es, g) && Run(s, es, g) == Some(s') && Inv(s')
    ensures Connects(s, c, l, now, s')
  {
    var first, s3 := RequestMeetsVerdict(s, c, l, now, g);
    var m := R.Reply(RequestFrom(c, l), 8);
    var s4 := ConfirmationPasses(s3, s.net, c, m, g);
    s' := ClientConnects(s4, s.net, c, m, g);
    RunOfTwo(s3, TakeLast(s3, [], 0), s4, TakeLast(s4, [], 0), s', g);
    RunsJoin(s, first, [TakeLast(s3, [], 0), TakeLast(s4, [], 0)], s3, g);
    es := first + [TakeLast(s3, [], 0), TakeLast(s4, [], 0)];
    R.LoginVerdict(s.server, RequestFrom(c, l), now);
    R.SomeEmptyIff(s.server);
  }
}
