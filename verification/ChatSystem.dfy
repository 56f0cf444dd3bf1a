/**
 Clients, proxy and server joined by channels, as steps of one system. A channel is a bag of
 messages: any message in flight may be the next to arrive, which covers channels that keep order.
 */
module ChatSystem {
  import opened Bits
  import opened ChatMessages
  import opened MessageCoding
  import C = ClientTable
  import R = Registry
  import opened Proxy

  // Client c to the proxy, the proxy to the server, and back.
  datatype Packet = Up(c: nat, m: Message) | ToServer(m: Message) | FromServer(m: Message) | Down(c: nat, m: Message)

  // History: the chat lines sent, in order. start is the counter of retransmissions found in the
  // slot, copies how often the client put the line on the wire.
  datatype Sent = Sent(client: nat, id: int, data: seq<uint8>, control: seq<uint8>, start: int, copies: nat)

  // History: the chat lines the server took, with the text it passed on.
  datatype Taken = Taken(serial: nat, text: seq<uint8>, forced: bool)

  datatype System = System(
    clients: seq<C.Client>,
    server: R.Server,
    net: seq<Packet>,
    sends: seq<Sent>,
    taken: seq<Taken>)

  datatype Event = Type(c: nat, line: C.Line) | Deliver(k: nat, fl: seq<Flips>, now: int)

  function NewSystem(n: nat, codes: map<string, seq<uint8>>): System {
    System(seq(n, _ => C.NewClient()), R.NewServer(codes), [], [], [])
  }

  // The proxy polls its listening socket, its input and then the clients.
  const FIRST_SOCKET: nat := 2

  function Socket(c: nat): nat {
    c + FIRST_SOCKET
  }

  function Without(net: seq<Packet>, k: nat): (r: seq<Packet>)
    requires k < |net|
    ensures |r| == |net| - 1
    ensures forall i :: 0 <= i < |r| ==> r[i] == if i < k then net[i] else net[i + 1]
  {
    net[..k] + net[k + 1..]
  }

  function Ups(c: nat, ms: seq<Message>): (r: seq<Packet>)
    ensures |r| == |ms| && forall i :: 0 <= i < |ms| ==> r[i] == Up(c, ms[i])
  {
    seq(|ms|, i requires 0 <= i < |ms| => Up(c, ms[i]))
  }

  function Answers(ms: seq<Message>): (r: seq<Packet>)
    ensures |r| == |ms| && forall i :: 0 <= i < |ms| ==> r[i] == FromServer(ms[i])
  {
    seq(|ms|, i requires 0 <= i < |ms| => FromServer(ms[i]))
  }

  // ---------- steps ----------

  predicate Enabled(s: System, e: Event) {
    match e
    case Type(c, line) => c < |s.clients| && C.LineFits(s.clients[c], line) && line.serial == |s.sends|
    case Deliver(k, fl, _) =>
      k < |s.net| && (s.net[k].Up? && Disturbed(s.net[k].m) ==> |fl| == |s.net[k].m.data|)
  }

  // None when a client stops, by its own exit or by an access outside its table.
  function OnType(s: System, c: nat, line: C.Line): Option<System>
    requires c < |s.clients| && C.LineFits(s.clients[c], line)
  {
    match C.OnStdin(s.clients[c], line)
    case Fault => None
    case Done(cl, out) =>
      Some(s.(clients := s.clients[c := cl],
              net := s.net + Ups(c, out),
              sends := if out != [] && IsChat(out[0])
                       then s.sends + [Sent(c, out[0].id, line.data, line.control, out[0].tries, 1)]
                       else s.sends))
  }

  // The proxy receives m from client c. It notes which socket it came from.
  function OnUp(s: System, rest: seq<Packet>, c: nat, m: Message, fl: seq<Flips>): System
    requires Disturbed(m) ==> |fl| == |m.data|
  {
    match OnClientReceived(m.(socket := Socket(c)), fl)
    case None => s.(net := rest)
    case Some(r) => s.(net := rest + [ToServer(r)])
  }

  predicate Takes(m: Message, g: Corrector) {
    |m.pseudo| >= MIN_NAME_LENGTH && IsChat(m) && R.Accepts(g, m)
  }

  function OnServer(s: System, rest: seq<Packet>, m: Message, now: int, g: Corrector): System {
    var (server, out) := R.OnMsg(s.server, m, now, g);
    s.(server := server,
       net := rest + Answers(out),
       taken := if Takes(m, g) then s.taken + [Taken(m.serial, R.Corrected(g, m), R.Verdict(g, m) != 0)] else s.taken)
  }

  // The proxy receives m from the server. Its first two sockets have no client behind them.
  function OnFrom(s: System, rest: seq<Packet>, m: Message): System {
    match OnServerReceived(m, Socket(|s.clients|))
    case None => s.(net := rest)
    case Some(r) => s.(net := if r.socket < FIRST_SOCKET then rest else rest + [Down(r.socket - FIRST_SOCKET, r)])
  }

  function OneMore(sends: seq<Sent>, x: nat): seq<Sent> {
    if x < |sends| then sends[x := sends[x].(copies := sends[x].copies + 1)] else sends
  }

  function OnDown(s: System, rest: seq<Packet>, c: nat, m: Message): Option<System> {
    if c >= |s.clients| then Some(s.(net := rest))
    else match C.OnMsg(s.clients[c], m)
      case Fault => None
      case Done(cl, out) =>
        Some(s.(clients := s.clients[c := cl],
                net := rest + Ups(c, out),
                sends := if out == [] then s.sends else OneMore(s.sends, out[0].serial)))
  }

  function Step(s: System, e: Event, g: Corrector): Option<System>
    requires Enabled(s, e)
  {
    match e
    case Type(c, line) => OnType(s, c, line)
    case Deliver(k, fl, now) =>
      var rest := Without(s.net, k);
      match s.net[k]
      case Up(c, m) => Some(OnUp(s, rest, c, m, fl))
      case ToServer(m) => Some(OnServer(s, rest, m, now, g))
      case FromServer(m) => Some(OnFrom(s, rest, m))
      case Down(c, m) => OnDown(s, rest, c, m)
  }

  // ---------- tokens ----------

  // The line a packet settles or may still have to settle: open while the server has not taken
  // the line, decided once a positive acknowledgment is on its way back.
  predicate IsOpen(p: Packet) {
    match p
    case Up(_, m) => IsChat(m)
    case ToServer(m) => IsChat(m)
    case FromServer(m) => m.kind == MSG_ACK_NEG
    case Down(_, m) => m.kind == MSG_ACK_NEG
  }

  predicate IsDecided(p: Packet) {
    (p.FromServer? || p.Down?) && p.m.kind == MSG_ACK_POS
  }

  ghost function Of(p: Packet, decided: bool): multiset<nat> {
    if (if decided then IsDecided(p) else IsOpen(p)) then multiset{p.m.serial} else multiset{}
  }

  ghost function Tally(net: seq<Packet>, decided: bool): multiset<nat> {
    if net == [] then multiset{} else Tally(net[..|net| - 1], decided) + Of(net[|net| - 1], decided)
  }

  lemma {:induction false} TallyOfSum(a: seq<Packet>, b: seq<Packet>, decided: bool)
    ensures Tally(a + b, decided) == Tally(a, decided) + Tally(b, decided)
    decreases |b|
  {
    if b == [] {
      assert a + b == a;
    } else {
      var n := |b| - 1;
      assert (a + b)[..|a + b| - 1] == a + b[..n];
      TallyOfSum(a, b[..n], decided);
    }
  }

  lemma TallyOfOne(p: Packet, decided: bool)
    ensures Tally([p], decided) == Of(p, decided)
  {
    assert [p][..0] == [];
  }

  lemma TallyOfFirst(p: Packet, ps: seq<Packet>, decided: bool)
    ensures Tally([p] + ps, decided) == Of(p, decided) + Tally(ps, decided)
  {
    TallyOfSum([p], ps, decided);
    TallyOfOne(p, decided);
  }

  lemma TallyWithout(net: seq<Packet>, k: nat, decided: bool)
    requires k < |net|
    ensures Tally(net, decided) == Tally(Without(net, k), decided) + Of(net[k], decided)
  {
    var a, b := net[..k], net[k + 1..];
    assert net == (a + [net[k]]) + b;
    TallyOfSum(a + [net[k]], b, decided);
    TallyOfSum(a, [net[k]], decided);
    TallyOfOne(net[k], decided);
    TallyOfSum(a, b, decided);
  }

  lemma {:induction false} QuietTally(net: seq<Packet>, decided: bool)
    requires forall i :: 0 <= i < |net| ==> Of(net[i], decided) == multiset{}
    ensures Tally(net, decided) == multiset{}
    decreases |net|
  {
    if net != [] {
      QuietTally(net[..|net| - 1], decided);
    }
  }

  // Delivery takes packet k away and adds out.
  lemma TallyOfDelivery(net: seq<Packet>, k: nat, out: seq<Packet>, decided: bool)
    requires k < |net|
    ensures Tally(Without(net, k) + out, decided) + Of(net[k], decided) == Tally(net, decided) + Tally(out, decided)
  {
    TallyWithout(net, k, decided);
    TallyOfSum(Without(net, k), out, decided);
  }

  // ---------- sums over what is in flight ----------

  ghost function One(b: bool): nat {
    if b then 1 else 0
  }

  // The sum of a measure over the packets in flight.
  ghost function Sum(f: Packet -> nat, net: seq<Packet>): nat {
    if net == [] then 0 else Sum(f, net[..|net| - 1]) + f(net[|net| - 1])
  }

  lemma {:induction false} SumOfJoin(f: Packet -> nat, a: seq<Packet>, b: seq<Packet>)
    ensures Sum(f, a + b) == Sum(f, a) + Sum(f, b)
    decreases |b|
  {
    if b == [] {
      assert a + b == a;
    } else {
      var n := |b| - 1;
      assert (a + b)[..|a + b| - 1] == a + b[..n];
      SumOfJoin(f, a, b[..n]);
    }
  }

  lemma SumOfOne(f: Packet -> nat, p: Packet)
    ensures Sum(f, [p]) == f(p)
  {
    assert [p][..0] == [];
  }

  lemma SumOfMiddle(f: Packet -> nat, a: seq<Packet>, p: Packet, b: seq<Packet>)
    ensures Sum(f, (a + [p]) + b) == Sum(f, a + b) + f(p)
  {
    SumOfJoin(f, a + [p], b);
    SumOfJoin(f, a, [p]);
    SumOfOne(f, p);
    SumOfJoin(f, a, b);
  }

  lemma Cut(net: seq<Packet>, k: nat)
    requires k < |net|
    ensures (net[..k] + [net[k]]) + net[k + 1..] == net && net[..k] + net[k + 1..] == Without(net, k)
  {
  }

  lemma SumWithout(f: Packet -> nat, net: seq<Packet>, k: nat)
    requires k < |net|
    ensures Sum(f, net) == Sum(f, Without(net, k)) + f(net[k])
  {
    Cut(net, k);
    SumOfMiddle(f, net[..k], net[k], net[k + 1..]);
  }

  lemma {:induction false} SumOfNothing(f: Packet -> nat, net: seq<Packet>)
    requires forall i :: 0 <= i < |net| ==> f(net[i]) == 0
    ensures Sum(f, net) == 0
    decreases |net|
  {
    if net != [] {
      SumOfNothing(f, net[..|net| - 1]);
    }
  }
}
