/**
 Whole runs: one token for each line waited for, each line taken at most once, a bound on the
 copies sent, and the end of every exchange.
 */
module SystemRuns {
  import opened Bits
  import opened Counting
  import opened ChatMessages
  import opened MessageCoding
  import C = ClientTable
  import R = Registry
  import opened Proxy
  import opened ChatSystem
  import opened Delivery
  import opened DeliverySteps

  // Every event can happen where it does.
  predicate Fits(s: System, es: seq<Event>, g: Corrector)
    decreases |es|
  {
    es == [] || (Enabled(s, es[0]) && (Step(s, es[0], g).Some? ==> Fits(Step(s, es[0], g).value, es[1..], g)))
  }

  predicate StartsWith(es: seq<Event>, e: Event) {
    es != [] && es[0] == e
  }

  // None when a client stops on the way.
  function Run(s: System, es: seq<Event>, g: Corrector): Option<System>
    requires Fits(s, es, g)
    decreases |es|
  {
    if es == [] then Some(s)
    else if Step(s, es[0], g).Some? then Run(Step(s, es[0], g).value, es[1..], g)
    else None
  }

  /** No run makes a client stop, and every state it passes keeps the invariant. */
  lemma {:induction false} RunKeeps(s: System, es: seq<Event>, g: Corrector)
    requires Inv(s) && Fits(s, es, g)
    ensures Run(s, es, g).Some? && Inv(Run(s, es, g).value)
    decreases |es|
  {
    if es != [] {
      StepKeeps(s, es[0], g);
      RunKeeps(Step(s, es[0], g).value, es[1..], g);
    }
  }

  // A state some run leads to.
  ghost predicate Reachable(s: System) {
    exists n: nat, codes, es, g :: Leads(n, codes, es, g, s)
  }

  ghost predicate Leads(n: nat, codes: map<string, seq<uint8>>, es: seq<Event>, g: Corrector, s: System) {
    Fits(NewSystem(n, codes), es, g) && Run(NewSystem(n, codes), es, g) == Some(s)
  }

  lemma ReachableIsFine(s: System)
    requires Reachable(s)
    ensures Inv(s)
  {
    var n: nat, codes, es, g :| Leads(n, codes, es, g, s);
    NewSystemIsFine(n, codes);
    RunKeeps(NewSystem(n, codes), es, g);
  }

  /** A client of this system never outgrows its table: the proxy drops the errors of a login, which
      alone would have it try again. */
  lemma CounterFits(s: System, c: nat)
    requires Reachable(s) && c < |s.clients|
    ensures s.clients[c].nb <= |s.clients[c].slots|
  {
    ReachableIsFine(s);
    assert ClientOk(s.sends, c, s.clients[c]);
  }

  // ---------- one token ----------

  // A packet that bears on slot id of client c: a copy of its line, or an acknowledgment.
  predicate IsToken(p: Packet, c: nat, id: int) {
    && (IsOpen(p) || IsDecided(p)) && p.m.id == id
    && match p
       case Up(o, m) => o == c
       case Down(o, m) => o == c
       case ToServer(m) => m.socket == Socket(c)
       case FromServer(m) => m.socket == Socket(c)
  }

  lemma {:induction false} FindToken(net: seq<Packet>, x: nat) returns (k: nat)
    requires Tally(net, false)[x] + Tally(net, true)[x] > 0
    ensures k < |net| && (IsOpen(net[k]) || IsDecided(net[k])) && net[k].m.serial == x
    decreases |net|
  {
    var n := |net| - 1;
    if Of(net[n], false)[x] + Of(net[n], true)[x] > 0 {
      k := n;
    } else {
      k := FindToken(net[..n], x);
    }
  }

  lemma TwoTokensCount(net: seq<Packet>, j: nat, k: nat)
    requires j < k < |net| && net[j].m.serial == net[k].m.serial
    requires (IsOpen(net[j]) || IsDecided(net[j])) && (IsOpen(net[k]) || IsDecided(net[k]))
    ensures Tally(net, false)[net[k].m.serial] + Tally(net, true)[net[k].m.serial] >= 2
  {
    TallyWithout(net, k, false);
    TallyWithout(net, k, true);
    assert Without(net, k)[j] == net[j];
    TokenShows(Without(net, k), j);
  }

  lemma TokenOwner(s: System, k: nat, c: nat, id: int)
    requires Inv(s) && k < |s.net| && IsToken(s.net[k], c, id)
    ensures s.net[k].m.serial < |s.sends| && s.sends[s.net[k].m.serial].client == c
    ensures s.sends[s.net[k].m.serial].id == id
    ensures c < |s.clients| && 0 <= id < |s.clients[c].slots| && IsChat(s.clients[c].slots[id])
    ensures s.clients[c].slots[id].serial == s.net[k].m.serial
  {
    RestIsOk(s, k);
    TokenIsLive(s, k);
  }

  /** A line a client waits for has one token in flight, and only one. */
  lemma OneToken(s: System, c: nat, id: nat) returns (k: nat)
    requires Reachable(s) && c < |s.clients| && id < |s.clients[c].slots| && IsChat(s.clients[c].slots[id])
    ensures k < |s.net| && IsToken(s.net[k], c, id) && s.net[k].m.serial == s.clients[c].slots[id].serial
    ensures forall j :: 0 <= j < |s.net| && IsToken(s.net[j], c, id) ==> j == k
  {
    ReachableIsFine(s);
    var x := s.clients[c].slots[id].serial;
    assert ClientOk(s.sends, c, s.clients[c]) && SlotOk(s.sends, c, s.clients[c], id);
    assert Conserved(s, x);
    k := FindToken(s.net, x);
    RestIsOk(s, k);
    TokenShows(s.net, k);
    forall j | 0 <= j < |s.net| && IsToken(s.net[j], c, id) ensures j == k {
      TokenOwner(s, j, c, id);
      if j < k {
        TwoTokensCount(s.net, j, k);
      } else if k < j {
        TwoTokensCount(s.net, k, j);
      }
    }
  }

  /** Numbers are never taken for one another: an acknowledgment, or a copy, that names a slot finds
      there the very line it was made for, even when the slot has held other lines before. */
  lemma NoAlias(s: System, k: nat, c: nat, id: int)
    requires Reachable(s) && k < |s.net| && IsToken(s.net[k], c, id)
    ensures c < |s.clients| && 0 <= id < |s.clients[c].slots| && id < s.clients[c].nb
    ensures IsChat(s.clients[c].slots[id]) && s.clients[c].slots[id].serial == s.net[k].m.serial
    ensures s.clients[c].connected && !s.clients[c].waiting
  {
    ReachableIsFine(s);
    TokenOwner(s, k, c, id);
    assert ClientOk(s.sends, c, s.clients[c]) && SlotOk(s.sends, c, s.clients[c], id);
  }

  // ---------- taken once ----------

  lemma {:induction false} SerialsShow(taken: seq<Taken>, j: nat)
    requires j < |taken|
    ensures Serials(taken)[taken[j].serial] >= 1
    decreases |taken|
  {
    if j < |taken| - 1 {
      SerialsShow(taken[..|taken| - 1], j);
    }
  }

  lemma {:induction false} SerialsShowTwice(taken: seq<Taken>, j: nat, k: nat)
    requires j < k < |taken| && taken[j].serial == taken[k].serial
    ensures Serials(taken)[taken[j].serial] >= 2
    decreases |taken|
  {
    if k < |taken| - 1 {
      SerialsShowTwice(taken[..|taken| - 1], j, k);
    } else {
      SerialsShow(taken[..|taken| - 1], j);
    }
  }

  lemma {:induction false} FindTaken(taken: seq<Taken>, x: nat) returns (j: nat)
    requires Serials(taken)[x] > 0
    ensures j < |taken| && taken[j].serial == x
    decreases |taken|
  {
    if taken[|taken| - 1].serial == x {
      j := |taken| - 1;
    } else {
      j := FindTaken(taken[..|taken| - 1], x);
    }
  }

  ghost predicate WasTaken(taken: seq<Taken>, x: nat) {
    exists j :: 0 <= j < |taken| && taken[j].serial == x
  }

  /** Each line is taken at most once, however often it was sent again. */
  lemma TakenAtMostOnce(s: System)
    requires Reachable(s)
    ensures forall j, k :: 0 <= j < k < |s.taken| ==> s.taken[j].serial != s.taken[k].serial
    ensures forall j :: 0 <= j < |s.taken| ==> s.taken[j].serial < |s.sends|
  {
    ReachableIsFine(s);
    forall j, k | 0 <= j < k < |s.taken| ensures s.taken[j].serial != s.taken[k].serial {
      assert Conserved(s, s.taken[j].serial);
      if s.taken[j].serial == s.taken[k].serial {
        SerialsShowTwice(s.taken, j, k);
      }
    }
    forall j | 0 <= j < |s.taken| ensures s.taken[j].serial < |s.sends| {
      assert Conserved(s, s.taken[j].serial);
      SerialsShow(s.taken, j);
    }
  }

  /** A line sent is no longer waited for only when it has been taken. */
  lemma SettledIsTaken(s: System, x: nat)
    requires Reachable(s) && x < |s.sends| && !Live(s.clients, s.sends, x)
    ensures WasTaken(s.taken, x)
  {
    ReachableIsFine(s);
    assert Conserved(s, x);
    var j := FindTaken(s.taken, x);
  }

  // ---------- how often a line is sent ----------

  function Max(a: int, b: int): int {
    if a < b then b else a
  }

  /** Whatever the noise, a line goes on the wire at most seven times when its slot's counter
      stood at zero, and in general as often as the counter leaves room for. */
  lemma CopiesBounded(s: System, x: nat)
    requires Reachable(s) && x < |s.sends|
    ensures 1 <= s.sends[x].copies <= Max(1, 7 - s.sends[x].start)
  {
    ReachableIsFine(s);
    assert CopiesOk(s.sends[x]);
  }

  // ---------- counters that start at zero ----------

  // No free slot holds an old counter.
  ghost predicate Zeroed(s: System) {
    && (forall c, i :: 0 <= c < |s.clients| && 0 <= i < |s.clients[c].slots| && !C.Occupied(s.clients[c].slots[i]) ==>
          s.clients[c].slots[i].tries == 0)
    && forall x :: 0 <= x < |s.sends| ==> s.sends[x].start == 0
  }

  // The memory a growth adds comes zeroed.
  predicate CleanMemory(e: Event) {
    e.Type? ==> forall i :: 0 <= i < |e.line.junk| ==> e.line.junk[i] == 0
  }

  lemma ZeroedSend(cl: C.Client, l: C.Line)
    requires C.LineFits(cl, l) && C.OnStdin(cl, l).Done?
    requires forall i :: 0 <= i < |l.junk| ==> l.junk[i] == 0
    requires forall i :: 0 <= i < |cl.slots| && !C.Occupied(cl.slots[i]) ==> cl.slots[i].tries == 0
    ensures var r := C.OnStdin(cl, l);
      && (forall i :: 0 <= i < |r.client.slots| && !C.Occupied(r.client.slots[i]) ==> r.client.slots[i].tries == 0)
      && (r.out != [] && IsChat(r.out[0]) ==> r.out[0].tries == 0)
  {
  }

  lemma ZeroedReply(cl: C.Client, m: Message)
    requires C.OnMsg(cl, m).Done?
    requires forall i :: 0 <= i < |cl.slots| && !C.Occupied(cl.slots[i]) ==> cl.slots[i].tries == 0
    ensures var r := C.OnMsg(cl, m);
      forall i :: 0 <= i < |r.client.slots| && !C.Occupied(r.client.slots[i]) ==> r.client.slots[i].tries == 0
  {
  }

  lemma StepKeepsZeroed(s: System, e: Event, g: Corrector)
    requires Zeroed(s) && Enabled(s, e) && CleanMemory(e) && Step(s, e, g).Some?
    ensures Zeroed(Step(s, e, g).value)
  {
    match e
    case Type(c, line) => ZeroedSend(s.clients[c], line);
    case Deliver(k, fl, now) =>
      if s.net[k].Down? && s.net[k].c < |s.clients| {
        ZeroedReply(s.clients[s.net[k].c], s.net[k].m);
      }
  }

  lemma {:induction false} RunKeepsZeroed(s: System, es: seq<Event>, g: Corrector)
    requires Zeroed(s) && Fits(s, es, g) && Run(s, es, g).Some?
    requires forall i :: 0 <= i < |es| ==> CleanMemory(es[i])
    ensures Zeroed(Run(s, es, g).value)
    decreases |es|
  {
    if es != [] {
      StepKeepsZeroed(s, es[0], g);
      RunKeepsZeroed(Step(s, es[0], g).value, es[1..], g);
    }
  }

  /** With zeroed memory every line starts with its counter at zero, so it is never put on the wire more than
      seven times. */
  lemma SevenCopies(n: nat, codes: map<string, seq<uint8>>, es: seq<Event>, g: Corrector, x: nat)
    requires Fits(NewSystem(n, codes), es, g) && forall i :: 0 <= i < |es| ==> CleanMemory(es[i])
    requires Run(NewSystem(n, codes), es, g).Some? && x < |Run(NewSystem(n, codes), es, g).value.sends|
    ensures Run(NewSystem(n, codes), es, g).value.sends[x].start == 0
    ensures 1 <= Run(NewSystem(n, codes), es, g).value.sends[x].copies <= 7
  {
    var s := Run(NewSystem(n, codes), es, g).value;
    assert Leads(n, codes, es, g, s);
    CopiesBounded(s, x);
    RunKeepsZeroed(NewSystem(n, codes), es, g);
  }

  // ---------- names and codes ----------

  /** In every state the names and the array of clients agree both ways, there are no more names
      than slots, and looking a name up removes nothing. */
  lemma NamesAgree(s: System, p: string)
    requires Reachable(s)
    ensures R.Agree(s.server.clients, s.server.index) && |s.server.index| <= R.NB_MAX_CONNECTED_CLIENTS
    ensures R.Lookup(s.server, p) == (s.server, if p in s.server.index then Some(s.server.index[p]) else None)
  {
    ReachableIsFine(s);
    R.IndexIsSmall(s.server);
    R.NoBadValue(s.server, p);
  }

  /** The code stored for a name never changes, whatever happens. */
  lemma {:induction false} CodesNeverChange(s: System, es: seq<Event>, g: Corrector, p: string)
    requires Fits(s, es, g) && Run(s, es, g).Some? && p in s.server.codes
    ensures p in Run(s, es, g).value.server.codes && Run(s, es, g).value.server.codes[p] == s.server.codes[p]
    decreases |es|
  {
    if es != [] {
      if es[0].Deliver? && s.net[es[0].k].ToServer? {
        R.CodesStay(s.server, s.net[es[0].k].m, es[0].now, g, p);
      }
      CodesNeverChange(Step(s, es[0], g).value, es[1..], g, p);
    }
  }

  /** A name of three letters passes the client, which counts the newline, and is never answered by
      the server, which does not. Exactly the other names that the client passes get an answer. */
  lemma NameAnsweredIff(cl: C.Client, l: C.Line, server: R.Server, now: int, g: Corrector)
    requires C.LineFits(cl, l) && cl.pseudo == "" && !cl.waiting
    requires 0 < |cl.slots| && R.Valid(server) && |l.text| < MAX_NAME_LENGTH
    ensures C.OnStdin(cl, l).Done?
    ensures C.OnStdin(cl, l).out == if |l.text| >= 3 then [C.Request(l.text, l.code)] else []
    ensures R.OnMsg(server, C.Request(l.text, l.code), now, g).1 != [] <==> |l.text| >= 4
  {
    if R.NameOk(l.text) {
      R.LoginVerdict(server, C.Request(l.text, l.code), now);
    }
  }

  // ---------- every exchange ends ----------

  // One copy of a line weighs more than twice the messages its acceptance puts in flight, which
  // are an acknowledgment and one announcement for each of 196 clients.
  function Lines(n: nat): nat {
    395 * n
  }

  // Refusals still possible.
  function Left(tries: int): nat {
    if tries > R.MAX_RETRANSMISSION then 0 else R.MAX_RETRANSMISSION + 1 - tries
  }

  // Deliveries a packet can still cause, at most.
  function Work(p: Packet): nat {
    match p
    case Up(_, m) => if IsChat(m) then Lines(4 * Left(m.tries) + 2) else Lines(2)
    case ToServer(m) => if IsChat(m) then Lines(4 * Left(m.tries) + 1) else Lines(1)
    case FromServer(m) => if m.kind == MSG_ACK_NEG then Lines(4 * Left(m.tries) + 4) else 2
    case Down(_, m) => if m.kind == MSG_ACK_NEG then Lines(4 * Left(m.tries) + 3) else 1
  }

  ghost function Weight(net: seq<Packet>): nat {
    Sum(Work, net)
  }

  lemma {:induction false} WeightOfReplies(ms: seq<Message>)
    requires forall i :: 0 <= i < |ms| ==> ms[i].kind != MSG_ACK_NEG
    ensures Weight(Answers(ms)) == 2 * |ms|
    decreases |ms|
  {
    if ms != [] {
      var n := |ms| - 1;
      WeightOfReplies(ms[..n]);
      assert Answers(ms)[..n] == Answers(ms[..n]);
    }
  }

  // The deliveries the answer to a message can cause are fewer than those it could itself.
  lemma AnswersWeighLess(server: R.Server, m: Message, now: int, g: Corrector)
    requires R.Valid(server)
    ensures Weight(Answers(R.OnMsg(server, m, now, g).1)) < Work(ToServer(m))
  {
    var ms := R.OnMsg(server, m, now, g).1;
    R.NoBadValue(server, m.pseudo);
    if IsChat(m) && |m.pseudo| >= MIN_NAME_LENGTH && !R.Accepts(g, m) {
      assert Answers(ms) == [FromServer(R.NegativeAck(m))];
      SumOfOne(Work, FromServer(R.NegativeAck(m)));
    } else {
      AnswerKinds(server, m, now, g);
      WeightOfReplies(ms);
    }
  }

  lemma AnswerKinds(server: R.Server, m: Message, now: int, g: Corrector)
    requires R.Valid(server) && !(IsChat(m) && |m.pseudo| >= MIN_NAME_LENGTH && !R.Accepts(g, m))
    ensures var ms := R.OnMsg(server, m, now, g).1;
      |ms| <= R.NB_MAX_CONNECTED_CLIENTS + 1 && forall i :: 0 <= i < |ms| ==> ms[i].kind != MSG_ACK_NEG
  {
    R.NoBadValue(server, m.pseudo);
    if IsChat(m) && |m.pseudo| >= MIN_NAME_LENGTH {
      var a := R.Announcement(m, R.Corrected(g, m));
      var copies := R.Broadcast(server.clients, |server.clients|, a);
      R.BroadcastIs(server.clients, |server.clients|, a);
      forall i | 0 <= i < |copies| ensures copies[i].kind == MSG_SERVER_CLIENT {
        assert copies[i] in copies;
      }
    }
  }

  lemma ReplyWeighsLess(c: nat, cl: C.Client, m: Message)
    requires C.OnMsg(cl, m).Done?
    ensures Weight(Ups(c, C.OnMsg(cl, m).out)) < Work(Down(c, m))
  {
    var out := C.OnMsg(cl, m).out;
    if out == [] {
      assert Ups(c, out) == [];
    } else {
      assert Ups(c, out) == [Up(c, out[0])];
      SumOfOne(Work, Up(c, out[0]));
    }
  }

  // What delivery puts in flight in place of packet k.
  lemma DeliveryReplaces(s: System, k: nat, fl: seq<Flips>, now: int, g: Corrector) returns (out: seq<Packet>)
    requires Inv(s) && Enabled(s, Deliver(k, fl, now)) && Step(s, Deliver(k, fl, now), g).Some?
    ensures Step(s, Deliver(k, fl, now), g).value.net == Without(s.net, k) + out
    ensures Weight(out) < Work(s.net[k])
  {
    var rest := Without(s.net, k);
    assert rest + [] == rest;
    out := [];
    match s.net[k] {
      case Up(c, m) =>
        var r := OnClientReceived(m.(socket := Socket(c)), fl);
        if r.Some? {
          out := [ToServer(r.value)];
          SumOfOne(Work, out[0]);
        }
      case ToServer(m) =>
        out := Answers(R.OnMsg(s.server, m, now, g).1);
        AnswersWeighLess(s.server, m, now, g);
      case FromServer(m) =>
        if OnFrom(s, rest, m).net != rest {
          out := [Down(m.socket - FIRST_SOCKET, m)];
          SumOfOne(Work, out[0]);
        }
      case Down(c, m) =>
        if c < |s.clients| {
          out := Ups(c, C.OnMsg(s.clients[c], m).out);
          ReplyWeighsLess(c, s.clients[c], m);
        }
    }
  }

  /** Each delivery leaves fewer to come. */
  lemma DeliveryIsProgress(s: System, k: nat, fl: seq<Flips>, now: int, g: Corrector)
    requires Inv(s) && Enabled(s, Deliver(k, fl, now))
    ensures Step(s, Deliver(k, fl, now), g).Some?
    ensures Weight(Step(s, Deliver(k, fl, now), g).value.net) < Weight(s.net)
  {
    StepKeeps(s, Deliver(k, fl, now), g);
    var out := DeliveryReplaces(s, k, fl, now, g);
    SumWithout(Work, s.net, k);
    SumOfJoin(Work, Without(s.net, k), out);
  }

  /** However the messages in flight are delivered, and whatever the noise, while nobody types
      deliveries come to an end: no more happen than the messages in flight weigh. */
  lemma {:induction false} DeliveriesEnd(s: System, es: seq<Event>, g: Corrector)
    requires Inv(s) && Fits(s, es, g) && forall i :: 0 <= i < |es| ==> es[i].Deliver?
    ensures |es| <= Weight(s.net)
    decreases |es|
  {
    if es != [] {
      var e := es[0];
      DeliveryIsProgress(s, e.k, e.fl, e.now, g);
      StepKeeps(s, e, g);
      DeliveriesEnd(Step(s, e, g).value, es[1..], g);
    }
  }

  // The next message of the bag arrives, undisturbed.
  function First(s: System, now: int): Event
    requires s.net != []
  {
    Deliver(0, seq(|s.net[0].m.data|, _ => Flips(0, 0)), now)
  }

  lemma RunOfMore(s: System, e: Event, es: seq<Event>, g: Corrector)
    requires Enabled(s, e) && Step(s, e, g).Some? && Fits(Step(s, e, g).value, es, g)
    ensures Fits(s, [e] + es, g) && Run(s, [e] + es, g) == Run(Step(s, e, g).value, es, g)
  {
    assert ([e] + es)[1..] == es;
  }

  lemma FirstIsProgress(s: System, now: int, g: Corrector)
    requires Inv(s) && s.net != []
    ensures Enabled(s, First(s, now)) && Step(s, First(s, now), g).Some?
    ensures var s' := Step(s, First(s, now), g).value; Inv(s') && Weight(s'.net) < Weight(s.net)
  {
    var e := First(s, now);
    DeliveryIsProgress(s, e.k, e.fl, e.now, g);
    StepKeeps(s, e, g);
  }

  /** From any state deliveries alone lead to one with nothing in flight. */
  lemma {:induction false} CanComeToRest(s: System, now: int, g: Corrector) returns (es: seq<Event>)
    requires Inv(s)
    ensures Fits(s, es, g) && forall i :: 0 <= i < |es| ==> es[i].Deliver?
    ensures Run(s, es, g).Some? && Run(s, es, g).value.net == []
    decreases Weight(s.net)
  {
    if s.net == [] {
      es := [];
    } else {
      var e := First(s, now);
      FirstIsProgress(s, now, g);
      var rest := CanComeToRest(Step(s, e, g).value, now, g);
      RunOfMore(s, e, rest, g);
      es := [e] + rest;
    }
  }

  /** And when none is left in flight, every line ever sent has been taken exactly once, and no
      client waits for any. */
  lemma QuietMeansTaken(s: System)
    requires Reachable(s) && s.net == []
    ensures forall x :: 0 <= x < |s.sends| ==> WasTaken(s.taken, x)
    ensures |s.taken| == |s.sends|
    ensures forall c, id :: 0 <= c < |s.clients| && 0 <= id < |s.clients[c].slots| ==> !IsChat(s.clients[c].slots[id])
  {
    ReachableIsFine(s);
    forall x | 0 <= x < |s.sends| ensures WasTaken(s.taken, x) {
      assert Conserved(s, x);
      SettledIsTaken(s, x);
    }
    TakenAtMostOnce(s);
    AsManyTaken(s.taken, |s.sends|);
    forall c, id | 0 <= c < |s.clients| && 0 <= id < |s.clients[c].slots| ensures !IsChat(s.clients[c].slots[id]) {
      if IsChat(s.clients[c].slots[id]) {
        var k := OneToken(s, c, id);
      }
    }
  }

  // Distinct numbers below n that cover all of them are n in number.
  lemma AsManyTaken(taken: seq<Taken>, n: nat)
    requires forall j, k :: 0 <= j < k < |taken| ==> taken[j].serial != taken[k].serial
    requires forall j :: 0 <= j < |taken| ==> taken[j].serial < n
    requires forall x :: 0 <= x < n ==> WasTaken(taken, x)
    ensures |taken| == n
  {
    var all := seq(|taken|, j requires 0 <= j < |taken| => taken[j].serial);
    DistinctCardinality(all);
    var elems := set x | x in all;
    assert elems == Below(n) by {
      forall x: nat | x < n ensures x in elems {
        assert WasTaken(taken, x);
        var j :| 0 <= j < |taken| && taken[j].serial == x;
        assert all[j] == x;
      }
    }
  }
}
