/**
 How often a line is sent: the bound on copies is attained whenever the server can be made to refuse
 the line, is passed only by slots that hold a negative counter, and is reached by every line that is
 taken by force. A line that cannot be refused is sent once.
 */
module Retries {
  import opened Bits
  import opened Messages
  import opened Correction
  import opened ChatMessages
  import opened MessageCoding
  import C = ClientTable
  import R = Registry
  import opened Proxy
  import opened ChatSystem
  import opened Delivery
  import opened DeliverySteps
  import opened SystemRuns
  import opened AnnouncedLines
  import opened Logins

  // ---------- refusals ----------

  // The flips fl, where the proxy disturbs the line at all, have the server find an error in it.
  ghost predicate RefusalNoise(g: Corrector, data: seq<uint8>, control: seq<uint8>, fl: seq<Flips>) {
    && |control| == |data|
    && if |data| >= MIN_NOISE_LENGTH then
         |fl| == |data| && ReturnCode(Flagged(g, NoisyData(data, fl), NoisyControl(control, fl))) != 0
       else ReturnCode(Flagged(g, data, control)) != 0
  }

  ghost predicate Refusable(g: Corrector, data: seq<uint8>, control: seq<uint8>) {
    exists fl :: RefusalNoise(g, data, control, fl)
  }

  // The last packet in flight is a copy of line x, as it was typed, with that counter.
  ghost predicate TopCopy(s: System, x: nat, tries: int) {
    && s.net != [] && x < |s.sends|
    && var p := s.net[|s.net| - 1];
    && p.Up? && IsChat(p.m) && p.m.serial == x && p.m.tries == tries
    && p.m.data == s.sends[x].data && p.m.control == s.sends[x].control
  }

  // The last packet is a copy that reached the server with an error found in it.
  ghost predicate TopRefused(s: System, x: nat, tries: int, g: Corrector) {
    && s.net != []
    && var p := s.net[|s.net| - 1];
    && p.ToServer? && IsChat(p.m) && p.m.serial == x && p.m.tries == tries && R.Verdict(g, p.m) != 0
  }

  // The last packet asks for line x again.
  ghost predicate TopAsks(s: System, x: nat, tries: int, down: bool) {
    && s.net != []
    && var p := s.net[|s.net| - 1];
    && (if down then p.Down? else p.FromServer?) && p.m.kind == MSG_ACK_NEG && p.m.serial == x && p.m.tries == tries
  }

  lemma LastGivesWay(s: System, out: seq<Packet>)
    requires s.net != []
    ensures |Without(s.net, |s.net| - 1) + out| == |s.net| - 1 + |out|
    ensures |out| == 1 ==> (Without(s.net, |s.net| - 1) + out)[|s.net| - 1] == out[0]
  {
  }

  lemma CopyIsRefused(s: System, x: nat, tries: int, fl: seq<Flips>, g: Corrector) returns (s': System)
    requires Inv(s) && TopCopy(s, x, tries) && RefusalNoise(g, s.sends[x].data, s.sends[x].control, fl)
    ensures Enabled(s, TakeLast(s, fl, 0)) && Step(s, TakeLast(s, fl, 0), g) == Some(s') && Inv(s')
    ensures TopRefused(s', x, tries, g) && s'.sends == s.sends
  {
    var e := TakeLast(s, fl, 0);
    StepKeeps(s, e, g);
    RestIsOk(s, |s.net| - 1);
    var p := s.net[|s.net| - 1];
    RequestPasses(s.clients, s.sends, p.c, p.m, fl);
    s' := Step(s, e, g).value;
    LastGivesWay(s, [ToServer(OnClientReceived(p.m.(socket := Socket(p.c)), fl).value)]);
  }

  lemma ServerRefuses(s: System, x: nat, tries: int, g: Corrector) returns (s': System)
    requires Inv(s) && TopRefused(s, x, tries, g) && tries <= R.MAX_RETRANSMISSION
    ensures Enabled(s, TakeLast(s, [], 0)) && Step(s, TakeLast(s, [], 0), g) == Some(s') && Inv(s')
    ensures TopAsks(s', x, tries + 1, false) && s'.sends == s.sends
  {
    var e := TakeLast(s, [], 0);
    StepKeeps(s, e, g);
    RestIsOk(s, |s.net| - 1);
    var m := s.net[|s.net| - 1].m;
    ChatIsAnswered(s, m, e.now, g);
    s' := Step(s, e, g).value;
    assert Answers([R.NegativeAck(m)]) == [FromServer(R.NegativeAck(m))];
    LastGivesWay(s, [FromServer(R.NegativeAck(m))]);
  }

  lemma ProxyAsks(s: System, x: nat, tries: int, g: Corrector) returns (s': System)
    requires Inv(s) && TopAsks(s, x, tries, false)
    ensures Enabled(s, TakeLast(s, [], 0)) && Step(s, TakeLast(s, [], 0), g) == Some(s') && Inv(s')
    ensures TopAsks(s', x, tries, true) && s'.sends == s.sends
  {
    var e := TakeLast(s, [], 0);
    StepKeeps(s, e, g);
    RestIsOk(s, |s.net| - 1);
    var m := s.net[|s.net| - 1].m;
    s' := Step(s, e, g).value;
    LastGivesWay(s, [Down(m.socket - FIRST_SOCKET, m)]);
  }

  lemma ClientResends(s: System, x: nat, tries: int, g: Corrector) returns (s': System)
    requires Inv(s) && TopAsks(s, x, tries, true)
    ensures Enabled(s, TakeLast(s, [], 0)) && Step(s, TakeLast(s, [], 0), g) == Some(s') && Inv(s')
    ensures TopCopy(s', x, tries) && x < |s.sends| && s'.sends == OneMore(s.sends, x)
  {
    var e, k := TakeLast(s, [], 0), |s.net| - 1;
    StepKeeps(s, e, g);
    AckFindsSlot(s, k);
    s' := Step(s, e, g).value;
    var c, m := s.net[k].c, s.net[k].m;
    assert ClientOk(s.sends, c, s.clients[c]);
    assert SlotOk(s.sends, c, s.clients[c], m.id);
    var out := C.OnMsg(s.clients[c], m).out;
    assert out == [Again(s.clients[c], m)];
    LastGivesWay(s, Ups(c, out));
  }

  // Up to the server, where an error is found in the copy.
  lemma HalfUp(s: System, x: nat, tries: int, fl: seq<Flips>, g: Corrector) returns (es: seq<Event>, s': System)
    requires Inv(s) && TopCopy(s, x, tries) && tries <= R.MAX_RETRANSMISSION
    requires RefusalNoise(g, s.sends[x].data, s.sends[x].control, fl)
    ensures |es| == 2 && es[0].Deliver? && es[1].Deliver?
    ensures Fits(s, es, g) && Run(s, es, g) == Some(s') && Inv(s')
    ensures TopAsks(s', x, tries + 1, false) && s'.sends == s.sends
  {
    var s1 := CopyIsRefused(s, x, tries, fl, g);
    s' := ServerRefuses(s1, x, tries, g);
    es := [TakeLast(s, fl, 0), TakeLast(s1, [], 0)];
    RunOfTwo(s, es[0], s1, es[1], s', g);
  }

  // And back to the client, which sends the line again.
  lemma HalfDown(s: System, x: nat, tries: int, g: Corrector) returns (es: seq<Event>, s': System)
    requires Inv(s) && TopAsks(s, x, tries, false)
    ensures |es| == 2 && es[0].Deliver? && es[1].Deliver?
    ensures Fits(s, es, g) && Run(s, es, g) == Some(s') && Inv(s')
    ensures TopCopy(s', x, tries) && x < |s.sends| && s'.sends == OneMore(s.sends, x)
  {
    var s1 := ProxyAsks(s, x, tries, g);
    s' := ClientResends(s1, x, tries, g);
    es := [TakeLast(s, [], 0), TakeLast(s1, [], 0)];
    RunOfTwo(s, es[0], s1, es[1], s', g);
  }

  /** One round: a copy whose counter allows a refusal comes back as one more copy of the same line. */
  lemma Round(s: System, x: nat, tries: int, fl: seq<Flips>, g: Corrector) returns (es: seq<Event>, s': System)
    requires Inv(s) && TopCopy(s, x, tries) && tries <= R.MAX_RETRANSMISSION
    requires RefusalNoise(g, s.sends[x].data, s.sends[x].control, fl)
    ensures |es| == 4 && (forall i :: 0 <= i < |es| ==> es[i].Deliver?)
    ensures Fits(s, es, g) && Run(s, es, g) == Some(s') && Inv(s')
    ensures TopCopy(s', x, tries + 1) && s'.sends == OneMore(s.sends, x)
  {
    var up, s1 := HalfUp(s, x, tries, fl, g);
    var down;
    down, s' := HalfDown(s1, x, tries + 1, g);
    RunsJoin(s, up, down, s1, g);
    es := up + down;
  }

  /** Refused again and again, a line climbs to the counter at which it is taken by force. */
  lemma {:induction false} Climb(s: System, x: nat, tries: int, fl: seq<Flips>, g: Corrector)
    returns (es: seq<Event>, s': System)
    requires Inv(s) && TopCopy(s, x, tries) && RefusalNoise(g, s.sends[x].data, s.sends[x].control, fl)
    ensures Fits(s, es, g) && Run(s, es, g) == Some(s') && Inv(s')
    ensures x < |s'.sends| && SameLine(s.sends[x], s'.sends[x])
    ensures TopCopy(s', x, Max(tries, R.MAX_RETRANSMISSION + 1))
    decreases R.MAX_RETRANSMISSION + 1 - tries
  {
    if tries > R.MAX_RETRANSMISSION {
      es, s' := [], s;
    } else {
      var first, s1 := Round(s, x, tries, fl, g);
      var rest;
      rest, s' := Climb(s1, x, tries + 1, fl, g);
      RunsJoin(s, first, rest, s1, g);
      es := first + rest;
    }
  }

  // ---------- the bound is attained ----------

  // The counter found in the slot that the line takes.
  function Found(cl: C.Client, l: C.Line): int
    requires C.LineFits(cl, l)
  {
    var r := C.Send(cl, l.data, l.control, l.junk, l.serial);
    if r.Done? && r.out != [] then r.out[0].tries else 0
  }

  // The client is about to send l.
  ghost predicate Sends(s: System, c: nat, l: C.Line) {
    Inv(s) && Enabled(s, Type(c, l)) && C.IsSend(s.clients[c])
  }

  lemma TypedIsTop(s: System, c: nat, l: C.Line, g: Corrector) returns (s': System)
    requires Sends(s, c, l)
    ensures Step(s, Type(c, l), g) == Some(s') && Inv(s') && TopCopy(s', |s.sends|, Found(s.clients[c], l))
    ensures s'.sends == s.sends + [Sent(c, s'.sends[|s.sends|].id, l.data, l.control, Found(s.clients[c], l), 1)]
  {
    StepKeeps(s, Type(c, l), g);
    assert ClientOk(s.sends, c, s.clients[c]);
    SentClient(s.sends, c, s.clients[c], l);
    s' := Step(s, Type(c, l), g).value;
  }

  lemma TopIsCounted(s: System, x: nat, tries: int)
    requires Inv(s) && TopCopy(s, x, tries)
    ensures s.sends[x].copies == tries - s.sends[x].start + 1
  {
    RestIsOk(s, |s.net| - 1);
  }

  /** From every state and for every line that can be refused, some run that starts with the line sends it
      as often as the bound allows. */
  lemma BoundAttained(s: System, c: nat, l: C.Line, fl: seq<Flips>, g: Corrector)
    returns (es: seq<Event>, s': System)
    requires Sends(s, c, l) && RefusalNoise(g, l.data, l.control, fl)
    ensures StartsWith(es, Type(c, l)) && Fits(s, es, g) && Run(s, es, g) == Some(s')
    ensures |s.sends| < |s'.sends| && s'.sends[|s.sends|].start == Found(s.clients[c], l)
    ensures s'.sends[|s.sends|].copies == Max(1, 7 - Found(s.clients[c], l))
  {
    var x, start := |s.sends|, Found(s.clients[c], l);
    var s1 := TypedIsTop(s, c, l, g);
    var rest;
    rest, s' := Climb(s1, x, start, fl, g);
    RunOfMore(s, Type(c, l), rest, g);
    es := [Type(c, l)] + rest;
    TopIsCounted(s', x, Max(start, R.MAX_RETRANSMISSION + 1));
  }

  lemma {:induction false} RunExtends(s: System, es: seq<Event>, g: Corrector)
    requires Inv(s) && Fits(s, es, g)
    ensures Run(s, es, g).Some? && Inv(Run(s, es, g).value)
    ensures |s.sends| <= |Run(s, es, g).value.sends|
    ensures forall y :: 0 <= y < |s.sends| ==> SameLine(s.sends[y], Run(s, es, g).value.sends[y])
    decreases |es|
  {
    if es != [] {
      StepKeeps(s, es[0], g);
      StepExtends(s, es[0], g);
      RunExtends(Step(s, es[0], g).value, es[1..], g);
    }
  }

  // A run that starts with the line and puts it on the wire more than seven times.
  ghost predicate PastSeven(s: System, c: nat, l: C.Line, es: seq<Event>, g: Corrector) {
    && StartsWith(es, Type(c, l)) && Fits(s, es, g) && Run(s, es, g).Some?
    && |s.sends| < |Run(s, es, g).value.sends| && Run(s, es, g).value.sends[|s.sends|].copies > 7
  }

  lemma PastSevenNeedsNegative(s: System, c: nat, l: C.Line, es: seq<Event>, g: Corrector)
    requires Sends(s, c, l) && PastSeven(s, c, l, es, g)
    ensures Found(s.clients[c], l) < 0
  {
    var s1 := TypedIsTop(s, c, l, g);
    RunExtends(s1, es[1..], g);
    var line := Run(s, es, g).value.sends[|s.sends|];
    assert SameLine(s1.sends[|s.sends|], line);
    assert CopiesOk(line);
  }

  /** Exactly when a line that can be refused may go on the wire more than seven times: when the counter
      found in its slot is negative. */
  lemma PastSevenIff(s: System, c: nat, l: C.Line, g: Corrector)
    requires Sends(s, c, l) && Refusable(g, l.data, l.control)
    ensures (exists es :: PastSeven(s, c, l, es, g)) <==> Found(s.clients[c], l) < 0
  {
    if Found(s.clients[c], l) < 0 {
      var fl :| RefusalNoise(g, l.data, l.control, fl);
      var es, s' := BoundAttained(s, c, l, fl, g);
      assert PastSeven(s, c, l, es, g);
    }
    if exists es :: PastSeven(s, c, l, es, g) {
      var es :| PastSeven(s, c, l, es, g);
      PastSevenNeedsNegative(s, c, l, es, g);
    }
  }

  // ---------- which lines can be refused ----------

  /** With the code in place every line the proxy may disturb can be refused, by two flips in a byte. */
  lemma LongLinesAreRefusable(g: Corrector, table: seq<uint16>, f: CheckFn, data: seq<uint8>)
    requires CorrectsWith(g, table, f) && Linear(f) && Inverts(table, f)
    requires |data| >= MIN_NOISE_LENGTH
    ensures Refusable(g, data, Controls(f, data))
  {
    var b: uint8 := 3;
    var fl := seq(|data|, _ => Flips(b, 0));
    LastTwoBits(b);
    TwoBitsAreFar(f, b);
    AnyNoiseVerdict(g, table, f, data, fl);
    var flags := Flagged(g, NoisyData(data, fl), NoisyControl(Controls(f, data), fl));
    var out := CorrectedData(g, NoisyData(data, fl), NoisyControl(Controls(f, data), fl));
    assert NoiseShows(f, data[0], fl[0], out[0], flags[0]);
    assert flags[0] in flags;
    assert RefusalNoise(g, data, Controls(f, data), fl);
  }

  /** In the program as shipped, with a table that nothing has built, no line can be refused. */
  lemma UnbuiltTableNeverRefuses(g: Corrector, table: seq<uint16>, f: CheckFn, data: seq<uint8>, control: seq<uint8>)
    requires CorrectsWith(g, table, f) && forall i :: 0 <= i < NB_SYNDROMES ==> table[i] == 0
    ensures !Refusable(g, data, control)
  {
    forall fl ensures !RefusalNoise(g, data, control, fl) {
      if |control| == |data| {
        UnbuiltTablePassesAll(g, table, f, data, control);
        if |fl| == |data| {
          UnbuiltTablePassesAll(g, table, f, NoisyData(data, fl), NoisyControl(control, fl));
        }
      }
    }
  }

  // ---------- a line past seven copies ----------

  lemma TypeEvent(s: System, c: nat, l: C.Line, g: Corrector) returns (s': System)
    requires Inv(s) && c < |s.clients| && C.LineFits(s.clients[c], l)
    ensures var e := Type(c, l.(serial := |s.sends|));
      Enabled(s, e) && Step(s, e, g) == Some(s') && Inv(s')
    ensures s'.clients[c] == C.OnStdin(s.clients[c], l.(serial := |s.sends|)).client
    ensures |s'.clients| == |s.clients|
  {
    var e := Type(c, l.(serial := |s.sends|));
    StepKeeps(s, e, g);
    s' := Step(s, e, g).value;
  }

  /** Lines that fill the table of a client without growing it. */
  lemma {:induction false} Fill(s: System, c: nat, l: C.Line, k: nat, g: Corrector) returns (es: seq<Event>, s': System)
    requires Inv(s) && c < |s.clients| && C.IsSend(s.clients[c]) && !s.clients[c].waiting
    requires C.LineFits(s.clients[c], l) && s.clients[c].nb + k <= |s.clients[c].slots|
    ensures Fits(s, es, g) && Run(s, es, g) == Some(s') && Inv(s') && c < |s'.clients|
    ensures C.IsSend(s'.clients[c]) && |s'.clients[c].slots| == |s.clients[c].slots|
    ensures s'.clients[c].nb == s.clients[c].nb + k && C.LineFits(s'.clients[c], l)
    decreases k
  {
    if k == 0 {
      es, s' := [], s;
    } else {
      var e := Type(c, l.(serial := |s.sends|));
      assert ClientOk(s.sends, c, s.clients[c]);
      C.SendCounts(s.clients[c], l.(serial := |s.sends|));
      var s1 := TypeEvent(s, c, l, g);
      var rest;
      rest, s' := Fill(s1, c, l, k - 1, g);
      RunOfMore(s, e, rest, g);
      es := [e] + rest;
    }
  }

  // The line, typed when the memory that a growth adds holds -1 in its counters.
  function OverJunk(l: C.Line, serial: nat): C.Line {
    l.(junk := seq(|l.junk|, _ => -1), serial := serial)
  }

  lemma GrownSlotIsNegative(cl: C.Client, l: C.Line, serial: nat)
    requires C.Tame(cl) && C.IsSend(cl) && cl.nb == |cl.slots| && C.LineFits(cl, l)
    ensures C.LineFits(cl, OverJunk(l, serial)) && Found(cl, OverJunk(l, serial)) == -1
  {
    var l' := OverJunk(l, serial);
    var grown := C.Roomy(cl, l'.junk);
    assert grown.slots[|cl.slots|] == C.NewSlot(-1);
    C.TameHasNext(cl, l'.junk);
  }

  /** A client whose table is full grows it over such memory, and its next line may go on the wire eight
      times. */
  lemma FullTableSendsEight(s: System, c: nat, l: C.Line, fl: seq<Flips>, g: Corrector)
    returns (es: seq<Event>, s': System)
    requires Inv(s) && c < |s.clients| && C.IsSend(s.clients[c]) && C.LineFits(s.clients[c], l)
    requires s.clients[c].nb == |s.clients[c].slots| && RefusalNoise(g, l.data, l.control, fl)
    ensures Fits(s, es, g) && Run(s, es, g) == Some(s')
    ensures |s.sends| < |s'.sends| && s'.sends[|s.sends|].copies == 8
  {
    assert ClientOk(s.sends, c, s.clients[c]);
    GrownSlotIsNegative(s.clients[c], l, |s.sends|);
    es, s' := BoundAttained(s, c, OverJunk(l, |s.sends|), fl, g);
  }

  // The line that logs a new client in: a name, and the code stored for it, if there is one.
  predicate NamesAnew(codes: map<string, seq<uint8>>, l: C.Line) {
    && C.LineFits(C.NewClient(), l) && 4 <= |l.text| < 64 && l.serial == 0
    && (l.text in codes ==> codes[l.text] == l.code)
  }

  lemma NewClientConnects(codes: map<string, seq<uint8>>, l: C.Line, g: Corrector) returns (es: seq<Event>, s': System)
    requires NamesAnew(codes, l)
    ensures Fits(NewSystem(1, codes), es, g) && Run(NewSystem(1, codes), es, g) == Some(s') && Inv(s')
    ensures |s'.clients| == 1 && s'.sends == []
    ensures var cl := s'.clients[0];
      C.IsSend(cl) && !cl.waiting && cl.nb == 1 && |cl.slots| == 10 && C.LineFits(cl, l)
  {
    NewSystemIsFine(1, codes);
    es, s' := LoginCompletes(NewSystem(1, codes), 0, l, 0, g);
  }

  /** As it may happen: a client of a new system logs in, types nine lines that fill its table, and a tenth
      that grows it over memory holding -1; that line may go on the wire eight times. */
  lemma EightCopies(codes: map<string, seq<uint8>>, l: C.Line, fl: seq<Flips>, g: Corrector)
    returns (es: seq<Event>, s': System)
    requires NamesAnew(codes, l)
    requires RefusalNoise(g, l.data, l.control, fl)
    ensures Fits(NewSystem(1, codes), es, g) && Run(NewSystem(1, codes), es, g) == Some(s')
    ensures exists x :: 0 <= x < |s'.sends| && s'.sends[x].copies == 8
  {
    var login, s1 := NewClientConnects(codes, l, g);
    var fill, s2 := Fill(s1, 0, l, 9, g);
    var last;
    last, s' := FullTableSendsEight(s2, 0, l, fl, g);
    RunsJoin(s1, fill, last, s2, g);
    RunsJoin(NewSystem(1, codes), login, fill + last, s1, g);
    es := login + (fill + last);
    assert s'.sends[|s2.sends|].copies == 8;
  }
}
