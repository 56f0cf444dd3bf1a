/**
 What a taken line has been through: a line that cannot be refused is sent once and taken as good, and a
 line taken by force has been sent as often as the bound allows.
 */
module Takings {
  import opened Bits
  import opened CodeErrors
  import opened ChatMessages
  import opened MessageCoding
  import opened Messages
  import opened Correction
  import C = ClientTable
  import R = Registry
  import opened Proxy
  import opened ChatSystem
  import opened Delivery
  import opened DeliverySteps
  import opened SystemRuns
  import opened AnnouncedLines
  import opened Retries

  // m is a copy of the line as the proxy may leave it.
  ghost predicate Arrived(data: seq<uint8>, control: seq<uint8>, m: Message) {
    && |control| == |data|
    && if |data| >= MIN_NOISE_LENGTH then exists fl :: LeftBy(data, control, fl, m)
       else m.data == data && m.control == control
  }

  ghost predicate LeftBy(data: seq<uint8>, control: seq<uint8>, fl: seq<Flips>, m: Message)
    requires |control| == |data|
  {
    |fl| == |data| && m.data == NoisyData(data, fl) && m.control == NoisyControl(control, fl)
  }

  ghost predicate LineRefusable(g: Corrector, line: Sent) {
    Refusable(g, line.data, line.control)
  }

  ghost predicate PacketFirm(g: Corrector, sends: seq<Sent>, p: Packet) {
    match p
    case Up(_, m) => IsChat(m) ==>
      m.serial < |sends| && m.data == sends[m.serial].data && m.control == sends[m.serial].control
    case ToServer(m) => IsChat(m) ==>
      m.serial < |sends| && Arrived(sends[m.serial].data, sends[m.serial].control, m)
    case FromServer(m) => m.kind == MSG_ACK_NEG ==> m.serial < |sends| && LineRefusable(g, sends[m.serial])
    case Down(_, m) => m.kind == MSG_ACK_NEG ==> m.serial < |sends| && LineRefusable(g, sends[m.serial])
  }

  ghost predicate TakenFirm(g: Corrector, sends: seq<Sent>, t: Taken) {
    && t.serial < |sends|
    && (t.forced ==>
          LineRefusable(g, sends[t.serial]) && sends[t.serial].copies == Max(1, 7 - sends[t.serial].start))
  }

  ghost predicate PacketsFirm(g: Corrector, sends: seq<Sent>, net: seq<Packet>) {
    forall k :: 0 <= k < |net| ==> PacketFirm(g, sends, net[k])
  }

  ghost predicate Firm(g: Corrector, s: System) {
    && (forall x :: 0 <= x < |s.sends| ==> (s.sends[x].copies > 1 ==> LineRefusable(g, s.sends[x])))
    && (forall j :: 0 <= j < |s.taken| ==> TakenFirm(g, s.sends, s.taken[j]))
    && PacketsFirm(g, s.sends, s.net)
  }

  // Lines stay but for their number of copies.
  ghost predicate LinesStay(a: seq<Sent>, b: seq<Sent>) {
    |a| <= |b| && forall y :: 0 <= y < |a| ==> SameLine(a[y], b[y])
  }

  lemma PacketStaysFirm(g: Corrector, a: seq<Sent>, b: seq<Sent>, p: Packet)
    requires PacketFirm(g, a, p) && LinesStay(a, b)
    ensures PacketFirm(g, b, p)
  {
  }

  lemma FirmDelivery(g: Corrector, s: System, k: nat, out: seq<Packet>, sends': seq<Sent>)
    requires PacketsFirm(g, s.sends, s.net) && k < |s.net| && LinesStay(s.sends, sends')
    requires PacketsFirm(g, sends', out)
    ensures PacketsFirm(g, sends', Without(s.net, k) + out)
  {
    var rest := Without(s.net, k);
    forall i | 0 <= i < |rest + out| ensures PacketFirm(g, sends', (rest + out)[i]) {
      if i < |rest| {
        PacketStaysFirm(g, s.sends, sends', rest[i]);
      } else {
        assert (rest + out)[i] == out[i - |rest|];
      }
    }
  }

  // ---------- steps ----------

  lemma UpFirm(g: Corrector, s: System, k: nat, fl: seq<Flips>)
    requires Firm(g, s) && k < |s.net| && s.net[k].Up? && (Disturbed(s.net[k].m) ==> |fl| == |s.net[k].m.data|)
    ensures Firm(g, OnUp(s, Without(s.net, k), s.net[k].c, s.net[k].m, fl))
  {
    var p := s.net[k];
    var r := OnClientReceived(p.m.(socket := Socket(p.c)), fl);
    assert PacketFirm(g, s.sends, p);
    if r.Some? && IsChat(p.m) && Disturbed(p.m) {
      assert LeftBy(p.m.data, p.m.control, fl, r.value);
    }
    FirmDelivery(g, s, k, if r.Some? then [ToServer(r.value)] else [], s.sends);
    assert Without(s.net, k) + [] == Without(s.net, k);
  }

  lemma FromFirm(g: Corrector, s: System, k: nat)
    requires Firm(g, s) && k < |s.net| && s.net[k].FromServer?
    ensures Firm(g, OnFrom(s, Without(s.net, k), s.net[k].m))
  {
    var m := s.net[k].m;
    assert PacketFirm(g, s.sends, s.net[k]);
    FirmDelivery(g, s, k, if m.socket < FIRST_SOCKET then [] else [Down(m.socket - FIRST_SOCKET, m)], s.sends);
    FirmDelivery(g, s, k, [], s.sends);
    assert Without(s.net, k) + [] == Without(s.net, k);
  }

  // An error found in a copy means its line can be refused.
  lemma ErrorMeansRefusable(g: Corrector, data: seq<uint8>, control: seq<uint8>, m: Message)
    requires Arrived(data, control, m) && R.Verdict(g, m) != 0
    ensures Refusable(g, data, control)
  {
    if |data| >= MIN_NOISE_LENGTH {
      var fl :| LeftBy(data, control, fl, m);
      assert RefusalNoise(g, data, control, fl);
    } else {
      assert RefusalNoise(g, data, control, []);
    }
  }

  // A line is taken by force with its last copy.
  lemma ForcedIsLast(line: Sent, tries: int)
    requires line.copies == tries - line.start + 1 && (tries > line.start ==> tries <= R.MAX_RETRANSMISSION + 1)
    requires tries > R.MAX_RETRANSMISSION && line.copies >= 1
    ensures line.copies == Max(1, 7 - line.start)
  {
  }

  // Nothing the server says but a refusal concerns what can be refused.
  lemma AnswersFirm(g: Corrector, s: System, k: nat, now: int)
    requires Inv(s) && Firm(g, s) && k < |s.net| && s.net[k].ToServer?
    ensures PacketsFirm(g, s.sends, Answers(R.OnMsg(s.server, s.net[k].m, now, g).1))
  {
    var m := s.net[k].m;
    var ms := R.OnMsg(s.server, m, now, g).1;
    RestIsOk(s, k);
    assert PacketFirm(g, s.sends, s.net[k]);
    if IsChat(m) && |m.pseudo| >= MIN_NAME_LENGTH && !R.Accepts(g, m) {
      ChatIsAnswered(s, m, now, g);
      ErrorMeansRefusable(g, s.sends[m.serial].data, s.sends[m.serial].control, m);
    } else {
      AnswerKinds(s.server, m, now, g);
    }
  }

  lemma TakingFirm(g: Corrector, s: System, k: nat)
    requires Inv(s) && Firm(g, s) && k < |s.net| && s.net[k].ToServer? && Takes(s.net[k].m, g)
    ensures var m := s.net[k].m;
      TakenFirm(g, s.sends, Taken(m.serial, R.Corrected(g, m), R.Verdict(g, m) != 0))
  {
    var m := s.net[k].m;
    RestIsOk(s, k);
    assert PacketFirm(g, s.sends, s.net[k]);
    if R.Verdict(g, m) != 0 {
      ErrorMeansRefusable(g, s.sends[m.serial].data, s.sends[m.serial].control, m);
      assert CopiesOk(s.sends[m.serial]);
      ForcedIsLast(s.sends[m.serial], m.tries);
    }
  }

  lemma ServerFirm(g: Corrector, s: System, k: nat, now: int)
    requires Inv(s) && Firm(g, s) && k < |s.net| && s.net[k].ToServer?
    ensures Firm(g, OnServer(s, Without(s.net, k), s.net[k].m, now, g))
  {
    var m := s.net[k].m;
    AnswersFirm(g, s, k, now);
    FirmDelivery(g, s, k, Answers(R.OnMsg(s.server, m, now, g).1), s.sends);
    if Takes(m, g) {
      TakingFirm(g, s, k);
    }
  }

  // A line asked for again has not been taken.
  lemma AskedIsNotTaken(s: System, k: nat, j: nat)
    requires Inv(s) && k < |s.net| && IsOpen(s.net[k]) && j < |s.taken|
    ensures s.taken[j].serial != s.net[k].m.serial
  {
    TokenShows(s.net, k);
    assert Conserved(s, s.net[k].m.serial);
    SerialsShow(s.taken, j);
  }

  lemma NegativeFirm(g: Corrector, s: System, k: nat)
    requires Inv(s) && Firm(g, s) && k < |s.net| && s.net[k].Down? && s.net[k].m.kind == MSG_ACK_NEG
    ensures var r := OnDown(s, Without(s.net, k), s.net[k].c, s.net[k].m); r.Some? && Firm(g, r.value)
  {
    var c, m := s.net[k].c, s.net[k].m;
    DownKeeps(s, k);
    AckFindsSlot(s, k);
    assert ClientOk(s.sends, c, s.clients[c]);
    assert SlotOk(s.sends, c, s.clients[c], m.id);
    assert PacketFirm(g, s.sends, s.net[k]);
    var s' := OnDown(s, Without(s.net, k), c, m).value;
    var out := C.OnMsg(s.clients[c], m).out;
    assert out == [Again(s.clients[c], m)] && s'.sends == OneMore(s.sends, m.serial);
    FirmDelivery(g, s, k, Ups(c, out), s'.sends);
    forall j | 0 <= j < |s'.taken| ensures TakenFirm(g, s'.sends, s'.taken[j]) {
      AskedIsNotTaken(s, k, j);
      assert TakenFirm(g, s.sends, s.taken[j]);
    }
  }

  lemma OtherDownFirm(g: Corrector, s: System, k: nat)
    requires Inv(s) && Firm(g, s) && k < |s.net| && s.net[k].Down? && s.net[k].m.kind != MSG_ACK_NEG
    ensures var r := OnDown(s, Without(s.net, k), s.net[k].c, s.net[k].m); r.Some? && Firm(g, r.value)
  {
    var c, m := s.net[k].c, s.net[k].m;
    DownKeeps(s, k);
    RestIsOk(s, k);
    FirmDelivery(g, s, k, [], s.sends);
    assert C.OnMsg(s.clients[c], m).out == [];
    assert Ups(c, []) == [];
  }

  lemma TypeFirm(g: Corrector, s: System, c: nat, l: C.Line)
    requires Inv(s) && Firm(g, s) && Enabled(s, Type(c, l))
    ensures OnType(s, c, l).Some? && Firm(g, OnType(s, c, l).value)
  {
    TypeKeeps(s, c, l);
    var s' := OnType(s, c, l).value;
    assert LinesStay(s.sends, s'.sends);
    forall k | 0 <= k < |s'.net| ensures PacketFirm(g, s'.sends, s'.net[k]) {
      if k < |s.net| {
        PacketStaysFirm(g, s.sends, s'.sends, s.net[k]);
      }
    }
  }

  lemma StepFirm(g: Corrector, s: System, e: Event)
    requires Inv(s) && Firm(g, s) && Enabled(s, e)
    ensures Step(s, e, g).Some? && Firm(g, Step(s, e, g).value)
  {
    match e
    case Type(c, line) => TypeFirm(g, s, c, line);
    case Deliver(k, fl, now) =>
      match s.net[k]
      case Up(c, m) => UpFirm(g, s, k, fl);
      case ToServer(m) => ServerFirm(g, s, k, now);
      case FromServer(m) => FromFirm(g, s, k);
      case Down(c, m) =>
        if m.kind == MSG_ACK_NEG {
          NegativeFirm(g, s, k);
        } else {
          OtherDownFirm(g, s, k);
        }
  }

  lemma {:induction false} RunFirm(g: Corrector, s: System, es: seq<Event>)
    requires Inv(s) && Firm(g, s) && Fits(s, es, g)
    ensures Run(s, es, g).Some? && Firm(g, Run(s, es, g).value)
    decreases |es|
  {
    if es != [] {
      StepFirm(g, s, es[0]);
      StepKeeps(s, es[0], g);
      RunFirm(g, Step(s, es[0], g).value, es[1..]);
    }
  }

  // ---------- results ----------

  /** Over any run a line that was taken by force had been put on the wire as often as the bound allows,
      and a line that no noise can have refused was put on the wire once. */
  lemma ForcedAfterAllCopies(n: nat, codes: map<string, seq<uint8>>, es: seq<Event>, g: Corrector)
    requires Fits(NewSystem(n, codes), es, g)
    ensures Run(NewSystem(n, codes), es, g).Some?
    ensures var s := Run(NewSystem(n, codes), es, g).value;
      && (forall j :: 0 <= j < |s.taken| ==> TakenFirm(g, s.sends, s.taken[j]))
      && (forall x :: 0 <= x < |s.sends| && !LineRefusable(g, s.sends[x]) ==> s.sends[x].copies == 1)
  {
    var s0 := NewSystem(n, codes);
    NewSystemIsFine(n, codes);
    RunFirm(g, s0, es);
    RunKeeps(s0, es, g);
    var s := Run(s0, es, g).value;
    forall x | 0 <= x < |s.sends| && !LineRefusable(g, s.sends[x]) ensures s.sends[x].copies == 1 {
      assert CopiesOk(s.sends[x]);
    }
  }

  /** Exactly when a line typed in the course of a run may go on the wire more than seven times: when some
      noise can have it refused and the counter found in its slot is negative. */
  lemma PastSevenExactly(n: nat, codes: map<string, seq<uint8>>, before: seq<Event>, c: nat, l: C.Line, g: Corrector)
    requires Fits(NewSystem(n, codes), before, g) && Run(NewSystem(n, codes), before, g).Some?
    requires Sends(Run(NewSystem(n, codes), before, g).value, c, l)
    ensures var s := Run(NewSystem(n, codes), before, g).value;
      (exists es :: PastSeven(s, c, l, es, g)) <==>
        Found(s.clients[c], l) < 0 && Refusable(g, l.data, l.control)
  {
    var s := Run(NewSystem(n, codes), before, g).value;
    NewSystemIsFine(n, codes);
    RunFirm(g, NewSystem(n, codes), before);
    forall es | PastSeven(s, c, l, es, g) ensures Refusable(g, l.data, l.control) {
      PastSevenIsRefusable(g, s, c, l, es);
    }
    if Refusable(g, l.data, l.control) || exists es :: PastSeven(s, c, l, es, g) {
      PastSevenIff(s, c, l, g);
    }
  }

  lemma PastSevenIsRefusable(g: Corrector, s: System, c: nat, l: C.Line, es: seq<Event>)
    requires Sends(s, c, l) && Firm(g, s) && PastSeven(s, c, l, es, g)
    ensures Refusable(g, l.data, l.control)
  {
    var s1 := TypedIsTop(s, c, l, g);
    RunExtends(s1, es[1..], g);
    RunFirm(g, s, es);
    var line := Run(s, es, g).value.sends[|s.sends|];
    assert SameLine(s1.sends[|s.sends|], line);
    assert LineRefusable(g, line);
  }

  /** In the program as shipped, with a table that nothing has built, every line is put on the wire once,
      and every line taken is taken with its noise, none by force. */
  lemma ShippedTakesAtOnce(n: nat, codes: map<string, seq<uint8>>, es: seq<Event>, g: Corrector,
                           table: seq<uint16>, f: CheckFn)
    requires CorrectsWith(g, table, f) && forall i :: 0 <= i < NB_SYNDROMES ==> table[i] == 0
    requires Fits(NewSystem(n, codes), es, g)
    ensures Run(NewSystem(n, codes), es, g).Some?
    ensures var s := Run(NewSystem(n, codes), es, g).value;
      && (forall x :: 0 <= x < |s.sends| ==> s.sends[x].copies == 1)
      && (forall j :: 0 <= j < |s.taken| ==> !s.taken[j].forced)
  {
    ForcedAfterAllCopies(n, codes, es, g);
    var s := Run(NewSystem(n, codes), es, g).value;
    forall x | 0 <= x < |s.sends| ensures !LineRefusable(g, s.sends[x]) {
      UnbuiltTableNeverRefuses(g, table, f, s.sends[x].data, s.sends[x].control);
    }
    forall j | 0 <= j < |s.taken| ensures !s.taken[j].forced {
      assert TakenFirm(g, s.sends, s.taken[j]);
    }
  }

  /** There the text passed on is the bytes as they arrived. */
  lemma ShippedPassesNoise(s: System, rest: seq<Packet>, m: Message, now: int, g: Corrector,
                           table: seq<uint16>, f: CheckFn)
    requires CorrectsWith(g, table, f) && forall i :: 0 <= i < NB_SYNDROMES ==> table[i] == 0
    requires IsChat(m) && |m.pseudo| >= MIN_NAME_LENGTH
    ensures OnServer(s, rest, m, now, g).taken == s.taken + [Taken(m.serial, m.data, false)]
  {
    UnbuiltTablePassesAll(g, table, f, m.data, m.control);
  }
}
