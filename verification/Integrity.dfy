/**
 What is announced is what was typed: the system with the error-correcting code in place, under any
 noise that leaves no byte near a wrong codeword. At most two flips in a pair never do.
 */
module Integrity {
  import opened Bits
  import opened Correction
  import opened MessageCoding
  import opened ChatMessages
  import C = ClientTable
  import R = Registry
  import opened Proxy
  import opened ChatSystem
  import opened Delivery
  import opened DeliverySteps
  import opened SystemRuns
  import opened AnnouncedLines

  // g corrects with a table that is the true inverse of the code.
  ghost predicate Sound(g: Corrector, table: seq<uint16>, f: CheckFn) {
    CorrectsWith(g, table, f) && Linear(f) && Inverts(table, f)
  }

  // Where a control byte is disturbed, the noise is not within one data bit of a codeword.
  ghost predicate Detectable(f: CheckFn, fl: seq<Flips>) {
    forall i :: 0 <= i < |fl| && fl[i].check != 0 ==> !NearCodeword(f, fl[i].data, fl[i].check)
  }

  // The control bytes are filled in when a line is typed, and the noise is detectable.
  ghost predicate Mild(e: Event, f: CheckFn) {
    match e
    case Type(_, line) => line.control == Controls(f, line.data)
    case Deliver(_, fl, _) => Detectable(f, fl)
  }

  lemma TwoFlipsAt(table: seq<uint16>, f: CheckFn, d: uint8, data: uint8, check: uint8, r: (uint8, bool))
    requires Linear(f) && Distance4(f) && Inverts(table, f) && r == CorrectByte(table, f, d ^ data, f(d) ^ check)
    requires ByteWeight(data) + ByteWeight(check) <= 2 && check != 0
    ensures !NearCodeword(f, data, check)
  {
    VerdictOnByte(table, f, d, data, check, r);
    NoiseShown(table, f, d, data, check, r);
  }

  /** At most two flips in each pair are always detectable. */
  lemma TwoFlipsAreDetectable(table: seq<uint16>, f: CheckFn, fl: seq<Flips>)
    requires Linear(f) && Distance4(f) && Inverts(table, f) && AtMostTwo(fl)
    ensures Detectable(f, fl)
  {
    forall i | 0 <= i < |fl| && fl[i].check != 0 ensures !NearCodeword(f, fl[i].data, fl[i].check) {
      TwoFlipsAt(table, f, 0, fl[i].data, fl[i].check,
        CorrectByte(table, f, 0 ^ fl[i].data, f(0) ^ fl[i].check));
    }
  }

  // ---------- invariant ----------

  ghost predicate Flipped(f: CheckFn, ds: seq<uint8>, fl: seq<Flips>, m: Message) {
    |fl| == |ds| && m.data == NoisyData(ds, fl) && m.control == NoisyControl(Controls(f, ds), fl)
  }

  // m is ds encoded, with detectable noise.
  ghost predicate CopyOf(f: CheckFn, ds: seq<uint8>, m: Message) {
    exists fl :: Flipped(f, ds, fl, m) && Detectable(f, fl)
  }

  ghost predicate Announces(taken: seq<Taken>, m: Message) {
    exists j :: 0 <= j < |taken| && taken[j].serial == m.serial && taken[j].text == m.data
  }

  ghost predicate Honest(f: CheckFn, sends: seq<Sent>, taken: seq<Taken>, p: Packet) {
    match p
    case Up(_, m) => IsChat(m) ==>
      m.serial < |sends| && m.data == sends[m.serial].data && m.control == Controls(f, m.data)
    case ToServer(m) => IsChat(m) ==> m.serial < |sends| && CopyOf(f, sends[m.serial].data, m)
    case FromServer(m) => m.kind == MSG_SERVER_CLIENT ==> Announces(taken, m)
    case Down(_, m) => m.kind == MSG_SERVER_CLIENT ==> Announces(taken, m)
  }

  ghost predicate AllHonest(f: CheckFn, sends: seq<Sent>, taken: seq<Taken>, net: seq<Packet>) {
    forall k :: 0 <= k < |net| ==> Honest(f, sends, taken, net[k])
  }

  // What was taken without force is what was sent.
  ghost predicate Faithful(sends: seq<Sent>, t: Taken) {
    t.serial < |sends| && (!t.forced ==> t.text == sends[t.serial].data)
  }

  ghost predicate Intact(f: CheckFn, s: System) {
    && (forall x :: 0 <= x < |s.sends| ==> s.sends[x].control == Controls(f, s.sends[x].data))
    && (forall j :: 0 <= j < |s.taken| ==> Faithful(s.sends, s.taken[j]))
    && AllHonest(f, s.sends, s.taken, s.net)
  }

  // Lines stay, but for the number of copies, and nothing taken is forgotten.
  ghost predicate LinesStay(sends: seq<Sent>, taken: seq<Taken>, sends': seq<Sent>, taken': seq<Taken>) {
    && |sends| <= |sends'| && taken <= taken'
    && forall y :: 0 <= y < |sends| ==> SameLine(sends[y], sends'[y])
  }

  lemma HonestStays(f: CheckFn, sends: seq<Sent>, taken: seq<Taken>, sends': seq<Sent>, taken': seq<Taken>, p: Packet)
    requires Honest(f, sends, taken, p) && LinesStay(sends, taken, sends', taken')
    ensures Honest(f, sends', taken', p)
  {
    if (p.FromServer? || p.Down?) && p.m.kind == MSG_SERVER_CLIENT {
      var j :| 0 <= j < |taken| && taken[j].serial == p.m.serial && taken[j].text == p.m.data;
      assert taken'[j] == taken[j];
    }
  }

  // Packet k gives way to honest ones.
  lemma HonestDelivery(f: CheckFn, s: System, k: nat, out: seq<Packet>, sends': seq<Sent>, taken': seq<Taken>)
    requires AllHonest(f, s.sends, s.taken, s.net) && k < |s.net| && LinesStay(s.sends, s.taken, sends', taken')
    requires AllHonest(f, sends', taken', out)
    ensures AllHonest(f, sends', taken', Without(s.net, k) + out)
  {
    var rest := Without(s.net, k);
    forall i | 0 <= i < |rest + out| ensures Honest(f, sends', taken', (rest + out)[i]) {
      if i < |rest| {
        HonestStays(f, s.sends, s.taken, sends', taken', rest[i]);
      } else {
        assert (rest + out)[i] == out[i - |rest|];
      }
    }
  }

  // ---------- steps ----------

  lemma NoFlips(f: CheckFn, ds: seq<uint8>, m: Message)
    requires m.data == ds && m.control == Controls(f, ds)
    ensures CopyOf(f, ds, m)
  {
    var fl := seq(|ds|, _ => Flips(0, 0));
    assert Detectable(f, fl);
    forall i | 0 <= i < |ds|
      ensures NoisyData(ds, fl)[i] == ds[i] && NoisyControl(Controls(f, ds), fl)[i] == m.control[i]
    {
      XorZeroByte(ds[i]);
      XorZeroByte(f(ds[i]));
    }
    assert NoisyData(ds, fl) == ds;
    assert Flipped(f, ds, fl, m);
  }

  // The proxy's noise leaves a copy with detectable noise.
  lemma ProxyIsHonest(f: CheckFn, sends: seq<Sent>, taken: seq<Taken>, c: nat, m: Message, fl: seq<Flips>)
    requires Honest(f, sends, taken, Up(c, m)) && Detectable(f, fl) && (Disturbed(m) ==> |fl| == |m.data|)
    ensures var r := OnClientReceived(m.(socket := Socket(c)), fl);
      r.Some? ==> Honest(f, sends, taken, ToServer(r.value))
  {
    var r := OnClientReceived(m.(socket := Socket(c)), fl);
    if r.Some? && IsChat(m) {
      if Disturbed(m) {
        assert Flipped(f, m.data, fl, r.value);
      } else {
        NoFlips(f, m.data, r.value);
      }
    }
  }

  /** Whatever the noise, a copy that correction passes as good is corrected to the line that was typed
      exactly when no control byte was disturbed. */
  lemma PassedIsTypedIff(g: Corrector, table: seq<uint16>, f: CheckFn, ds: seq<uint8>, fl: seq<Flips>, m: Message)
    requires Sound(g, table, f) && Flipped(f, ds, fl, m) && R.Verdict(g, m) == 0
    ensures forall i :: 0 <= i < |ds| ==> NearCodeword(f, fl[i].data, fl[i].check)
    ensures R.Corrected(g, m) == ds <==> forall i :: 0 <= i < |fl| ==> fl[i].check == 0
  {
    AnyNoiseVerdict(g, table, f, ds, fl);
    var out, flags := CorrectedData(g, m.data, m.control), Flagged(g, m.data, m.control);
    forall i | 0 <= i < |ds|
      ensures NearCodeword(f, fl[i].data, fl[i].check) && (out[i] != ds[i] <==> fl[i].check != 0)
    {
      assert flags[i] in flags;
      assert NoiseShows(f, ds[i], fl[i], out[i], flags[i]);
    }
  }

  /** So a copy with detectable noise that is passed is corrected to the line that was typed. */
  lemma PassedIsTyped(g: Corrector, table: seq<uint16>, f: CheckFn, ds: seq<uint8>, m: Message)
    requires Sound(g, table, f) && CopyOf(f, ds, m) && R.Verdict(g, m) == 0
    ensures R.Corrected(g, m) == ds
  {
    var fl :| Flipped(f, ds, fl, m) && Detectable(f, fl);
    PassedIsTypedIff(g, table, f, ds, fl, m);
  }

  lemma AnnouncementIsHonest(f: CheckFn, sends: seq<Sent>, taken: seq<Taken>, clients: seq<Option<R.Session>>,
                             m: Message, t: Taken)
    requires t.serial == m.serial && taken != [] && taken[|taken| - 1] == t
    ensures var ms := R.Broadcast(clients, |clients|, R.Announcement(m, t.text));
      AllHonest(f, sends, taken, Answers(ms))
  {
    var a := R.Announcement(m, t.text);
    var ms := R.Broadcast(clients, |clients|, a);
    R.BroadcastIs(clients, |clients|, a);
    forall i | 0 <= i < |ms| ensures Honest(f, sends, taken, Answers(ms)[i]) {
      assert ms[i] in ms;
      assert Announces(taken, ms[i]);
    }
  }

  lemma UpIsHonest(f: CheckFn, s: System, k: nat, fl: seq<Flips>)
    requires Intact(f, s) && k < |s.net| && s.net[k].Up? && Detectable(f, fl)
    requires Disturbed(s.net[k].m) ==> |fl| == |s.net[k].m.data|
    ensures Intact(f, OnUp(s, Without(s.net, k), s.net[k].c, s.net[k].m, fl))
  {
    var p := s.net[k];
    ProxyIsHonest(f, s.sends, s.taken, p.c, p.m, fl);
    var r := OnClientReceived(p.m.(socket := Socket(p.c)), fl);
    HonestDelivery(f, s, k, if r.Some? then [ToServer(r.value)] else [], s.sends, s.taken);
    assert Without(s.net, k) + [] == Without(s.net, k);
  }

  lemma FromIsHonest(f: CheckFn, s: System, k: nat)
    requires Intact(f, s) && k < |s.net| && s.net[k].FromServer?
    ensures Intact(f, OnFrom(s, Without(s.net, k), s.net[k].m))
  {
    var m := s.net[k].m;
    assert Honest(f, s.sends, s.taken, s.net[k]);
    var out := if m.socket < FIRST_SOCKET then [] else [Down(m.socket - FIRST_SOCKET, m)];
    HonestDelivery(f, s, k, out, s.sends, s.taken);
    HonestDelivery(f, s, k, [], s.sends, s.taken);
    assert Without(s.net, k) + [] == Without(s.net, k);
  }

  // The server's answer to a line, once the line counts as taken.
  lemma TakenIsHonest(f: CheckFn, sends: seq<Sent>, taken: seq<Taken>, server: R.Server, m: Message, t: Taken, rc: int)
    requires t.serial == m.serial && taken != [] && taken[|taken| - 1] == t
    requires (rc == 0 || m.tries > R.MAX_RETRANSMISSION)
    ensures AllHonest(f, sends, taken, Answers(R.Answer(server.clients, m, rc, t.text)))
  {
    var ms := R.Answer(server.clients, m, rc, t.text);
    AnnouncementIsHonest(f, sends, taken, server.clients, m, t);
    var copies := R.Broadcast(server.clients, |server.clients|, R.Announcement(m, t.text));
    forall i | 0 <= i < |ms| ensures Honest(f, sends, taken, Answers(ms)[i]) {
      if i > 0 {
        assert Honest(f, sends, taken, Answers(copies)[i - 1]);
      }
    }
  }

  lemma AcceptedIsHonest(g: Corrector, table: seq<uint16>, f: CheckFn, s: System, k: nat, now: int)
    requires Inv(s) && Intact(f, s) && Sound(g, table, f)
    requires k < |s.net| && s.net[k].ToServer? && IsChat(s.net[k].m) && R.Accepts(g, s.net[k].m)
    ensures Intact(f, OnServer(s, Without(s.net, k), s.net[k].m, now, g))
  {
    var m := s.net[k].m;
    RestIsOk(s, k);
    assert Honest(f, s.sends, s.taken, s.net[k]);
    ChatIsAnswered(s, m, now, g);
    var rc := R.Verdict(g, m);
    var t := Taken(m.serial, R.Corrected(g, m), rc != 0);
    if rc == 0 {
      PassedIsTyped(g, table, f, s.sends[m.serial].data, m);
    }
    TakenIsHonest(f, s.sends, s.taken + [t], s.server, m, t, rc);
    HonestDelivery(f, s, k, Answers(R.Answer(s.server.clients, m, rc, t.text)), s.sends, s.taken + [t]);
  }

  lemma ServerIsHonest(g: Corrector, table: seq<uint16>, f: CheckFn, s: System, k: nat, now: int)
    requires Inv(s) && Intact(f, s) && Sound(g, table, f) && k < |s.net| && s.net[k].ToServer?
    ensures Intact(f, OnServer(s, Without(s.net, k), s.net[k].m, now, g))
  {
    var m := s.net[k].m;
    RestIsOk(s, k);
    if Takes(m, g) {
      AcceptedIsHonest(g, table, f, s, k, now);
    } else {
      OtherAnswers(s.server, m, now, g);
      HonestDelivery(f, s, k, Answers(R.OnMsg(s.server, m, now, g).1), s.sends, s.taken);
    }
  }

  lemma DownIsHonest(f: CheckFn, s: System, k: nat)
    requires Inv(s) && Intact(f, s) && k < |s.net| && s.net[k].Down?
    ensures var r := OnDown(s, Without(s.net, k), s.net[k].c, s.net[k].m); r.Some? && Intact(f, r.value)
  {
    var c, m := s.net[k].c, s.net[k].m;
    DownKeeps(s, k);
    RestIsOk(s, k);
    var r := OnDown(s, Without(s.net, k), c, m).value;
    var out := C.OnMsg(s.clients[c], m).out;
    assert LinesStay(s.sends, s.taken, r.sends, r.taken);
    if IsAck(m) {
      AckFindsSlot(s, k);
      assert ClientOk(s.sends, c, s.clients[c]);
      assert SlotOk(s.sends, c, s.clients[c], m.id);
    }
    HonestDelivery(f, s, k, Ups(c, out), r.sends, r.taken);
  }

  lemma TypeIsHonest(f: CheckFn, s: System, c: nat, l: C.Line)
    requires Inv(s) && Intact(f, s) && c < |s.clients| && C.LineFits(s.clients[c], l) && l.serial == |s.sends|
    requires l.control == Controls(f, l.data)
    ensures OnType(s, c, l).Some? && Intact(f, OnType(s, c, l).value)
  {
    TypeKeeps(s, c, l);
    var s' := OnType(s, c, l).value;
    var out := C.OnStdin(s.clients[c], l).out;
    assert LinesStay(s.sends, s.taken, s'.sends, s'.taken);
    forall k | 0 <= k < |s'.net| ensures Honest(f, s'.sends, s'.taken, s'.net[k]) {
      if k < |s.net| {
        HonestStays(f, s.sends, s.taken, s'.sends, s'.taken, s.net[k]);
      }
    }
  }

  lemma StepIsHonest(g: Corrector, table: seq<uint16>, f: CheckFn, s: System, e: Event)
    requires Inv(s) && Intact(f, s) && Sound(g, table, f) && Enabled(s, e) && Mild(e, f)
    ensures Step(s, e, g).Some? && Intact(f, Step(s, e, g).value)
  {
    match e
    case Type(c, line) => TypeIsHonest(f, s, c, line);
    case Deliver(k, fl, now) =>
      match s.net[k]
      case Up(c, m) => UpIsHonest(f, s, k, fl);
      case ToServer(m) => ServerIsHonest(g, table, f, s, k, now);
      case FromServer(m) => FromIsHonest(f, s, k);
      case Down(c, m) => DownIsHonest(f, s, k);
  }

  lemma {:induction false} RunIsHonest(g: Corrector, table: seq<uint16>, f: CheckFn, s: System, es: seq<Event>)
    requires Inv(s) && Intact(f, s) && Sound(g, table, f) && Fits(s, es, g)
    requires forall i :: 0 <= i < |es| ==> Mild(es[i], f)
    ensures Run(s, es, g).Some? && Intact(f, Run(s, es, g).value)
    decreases |es|
  {
    if es != [] {
      StepIsHonest(g, table, f, s, es[0]);
      StepKeeps(s, es[0], g);
      RunIsHonest(g, table, f, Step(s, es[0], g).value, es[1..]);
    }
  }

  // ---------- end to end ----------

  // m on its way to be shown carries the very bytes some client typed, unless the server was
  // made to take a line it could not correct.
  ghost predicate ShowsTyped(s: System, m: Message) {
    exists j :: 0 <= j < |s.taken| && s.taken[j].serial == m.serial && s.taken[j].text == m.data
      && Faithful(s.sends, s.taken[j])
  }

  // Every line on its way to be shown is one that was typed, under its sender's name.
  ghost predicate AllShown(s: System) {
    forall k :: 0 <= k < |s.net| && s.net[k].Down? && s.net[k].m.kind == MSG_SERVER_CLIENT ==>
      ShowsTyped(s, s.net[k].m) && Signed(s.clients, s.sends, s.net[k].m)
  }

  lemma HonestIsShown(f: CheckFn, s: System)
    requires Reachable(s) && Intact(f, s)
    ensures AllShown(s)
  {
    forall k | 0 <= k < |s.net| && s.net[k].Down? && s.net[k].m.kind == MSG_SERVER_CLIENT
      ensures ShowsTyped(s, s.net[k].m) && Signed(s.clients, s.sends, s.net[k].m)
    {
      assert Honest(f, s.sends, s.taken, s.net[k]);
      AnnouncedOnceAndSigned(s, s.net[k].c, s.net[k].m.serial);
    }
  }

  /** With the table built, the control bytes filled in and no passage that disturbs a control byte
      leaving a pair within one data bit of a codeword, whatever reaches a client to be shown is, byte
      for byte, a line that was typed, unless the server took that line by force after its last refusal;
      and it bears the name of the client that typed it. */
  lemma ShownIsTyped(n: nat, codes: map<string, seq<uint8>>, es: seq<Event>, g: Corrector, table: seq<uint16>)
    requires CorrectsWith(g, table, ControlFn()) && Inverts(table, ControlFn())
    requires Fits(NewSystem(n, codes), es, g) && forall i :: 0 <= i < |es| ==> Mild(es[i], ControlFn())
    ensures Run(NewSystem(n, codes), es, g).Some? && AllShown(Run(NewSystem(n, codes), es, g).value)
  {
    var f, s0 := ControlFn(), NewSystem(n, codes);
    ControlFnIsLinear();
    NewSystemIsFine(n, codes);
    RunIsHonest(g, table, f, s0, es);
    var s := Run(s0, es, g).value;
    assert Leads(n, codes, es, g, s);
    HonestIsShown(f, s);
  }

  // The control bytes are filled in, and at most two bits are flipped in each pair.
  ghost predicate Light(e: Event) {
    match e
    case Type(_, line) => line.control == Controls(ControlFn(), line.data)
    case Deliver(_, fl, _) => AtMostTwo(fl)
  }

  /** So it is when no passage flips more than two bits of a byte and its control byte. */
  lemma LightNoiseIsHarmless(n: nat, codes: map<string, seq<uint8>>, es: seq<Event>, g: Corrector,
                             table: seq<uint16>)
    requires CorrectsWith(g, table, ControlFn()) && Inverts(table, ControlFn())
    requires Fits(NewSystem(n, codes), es, g) && forall i :: 0 <= i < |es| ==> Light(es[i])
    ensures Run(NewSystem(n, codes), es, g).Some? && AllShown(Run(NewSystem(n, codes), es, g).value)
  {
    ControlFnIsLinear();
    ControlFnHasDistance();
    forall i | 0 <= i < |es| ensures Mild(es[i], ControlFn()) {
      assert Light(es[i]);
      if es[i].Deliver? {
        TwoFlipsAreDetectable(table, ControlFn(), es[i].fl);
      }
    }
    ShownIsTyped(n, codes, es, g, table);
  }
}
