/**
 The channel of a line: no client of the system ever leaves the default channel, so every line is
 broadcast when it is taken.
 */
module DefaultChannel {
  import opened ChatMessages
  import opened Bits
  import opened MessageCoding
  import C = ClientTable
  import R = Registry
  import opened Proxy
  import opened ChatSystem
  import opened Delivery
  import opened SystemRuns

  predicate LineDefault(m: Message) {
    IsChat(m) ==> m.flag == 0
  }

  ghost predicate ClientDefault(cl: C.Client) {
    cl.flag == 0 && forall i :: 0 <= i < |cl.slots| ==> LineDefault(cl.slots[i])
  }

  predicate PacketDefault(p: Packet) {
    p.Up? || p.ToServer? ==> LineDefault(p.m)
  }

  ghost predicate AllDefault(s: System) {
    && (forall c :: 0 <= c < |s.clients| ==> ClientDefault(s.clients[c]))
    && (forall k :: 0 <= k < |s.net| ==> PacketDefault(s.net[k]))
  }

  lemma TypedStaysDefault(cl: C.Client, l: C.Line)
    requires ClientDefault(cl) && C.LineFits(cl, l) && C.OnStdin(cl, l).Done?
    ensures ClientDefault(C.OnStdin(cl, l).client)
    ensures forall i :: 0 <= i < |C.OnStdin(cl, l).out| ==> LineDefault(C.OnStdin(cl, l).out[i])
  {
  }

  lemma ReceivedStaysDefault(cl: C.Client, m: Message)
    requires ClientDefault(cl) && C.OnMsg(cl, m).Done?
    ensures ClientDefault(C.OnMsg(cl, m).client)
    ensures forall i :: 0 <= i < |C.OnMsg(cl, m).out| ==> LineDefault(C.OnMsg(cl, m).out[i])
  {
  }

  lemma OnTypeDefault(s: System, c: nat, line: C.Line)
    requires AllDefault(s) && c < |s.clients| && C.LineFits(s.clients[c], line) && OnType(s, c, line).Some?
    ensures AllDefault(OnType(s, c, line).value)
  {
    assert ClientDefault(s.clients[c]);
    TypedStaysDefault(s.clients[c], line);
  }

  lemma OnDownDefault(s: System, k: nat)
    requires AllDefault(s) && k < |s.net| && s.net[k].Down?
    requires OnDown(s, Without(s.net, k), s.net[k].c, s.net[k].m).Some?
    ensures AllDefault(OnDown(s, Without(s.net, k), s.net[k].c, s.net[k].m).value)
  {
    var c, m := s.net[k].c, s.net[k].m;
    if c < |s.clients| {
      assert ClientDefault(s.clients[c]);
      ReceivedStaysDefault(s.clients[c], m);
    }
  }

  lemma StepKeepsDefault(s: System, e: Event, g: Corrector)
    requires AllDefault(s) && Enabled(s, e) && Step(s, e, g).Some?
    ensures AllDefault(Step(s, e, g).value)
  {
    match e
    case Type(c, line) => OnTypeDefault(s, c, line);
    case Deliver(k, fl, now) =>
      assert PacketDefault(s.net[k]);
      if s.net[k].Down? {
        OnDownDefault(s, k);
      }
  }

  lemma {:induction false} RunKeepsDefault(s: System, es: seq<Event>, g: Corrector)
    requires AllDefault(s) && Fits(s, es, g) && Run(s, es, g).Some?
    ensures AllDefault(Run(s, es, g).value)
    decreases |es|
  {
    if es != [] {
      StepKeepsDefault(s, es[0], g);
      RunKeepsDefault(Step(s, es[0], g).value, es[1..], g);
    }
  }

  lemma NewSystemIsDefault(n: nat, codes: map<string, seq<uint8>>)
    ensures AllDefault(NewSystem(n, codes))
  {
  }

  /** In every state a run leads to, each client is on the default channel, and so is each line that waits
      in a table or is on its way to the server. */
  lemma ReachableIsDefault(s: System)
    requires Reachable(s)
    ensures forall c :: 0 <= c < |s.clients| ==> s.clients[c].flag == 0
    ensures forall c, i :: 0 <= c < |s.clients| && 0 <= i < |s.clients[c].slots| && s.clients[c].slots[i].kind == 0 ==>
      s.clients[c].slots[i].flag == 0
    ensures forall k :: 0 <= k < |s.net| && s.net[k].m.kind == 0 && (s.net[k].Up? || s.net[k].ToServer?) ==>
      s.net[k].m.flag == 0
  {
    var n: nat, codes, es, g :| Leads(n, codes, es, g, s);
    RunKeepsDefault(NewSystem(n, codes), es, g);
    forall c | 0 <= c < |s.clients| ensures ClientDefault(s.clients[c]) {
    }
    forall k | 0 <= k < |s.net| ensures PacketDefault(s.net[k]) {
    }
  }
}
