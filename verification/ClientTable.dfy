/**
 A client: its login and its table of messages that wait for an acknowledgment.
 */
module ClientTable {
  import opened Bits
  import opened ChatMessages

  // slots is the growing array; its length is the total, nb the counter kept beside it.
  datatype Client = Client(
    slots: seq<Message>,
    nb: nat,
    pseudo: string,
    connected: bool,
    waiting: bool,
    flag: int)

  // What a handler does: a new state and the messages put on the wire, or the end of the
  // program, by its own exit or by reading outside the table.
  datatype Outcome = Done(client: Client, out: seq<Message>) | Fault

  function NewClient(): Client {
    Client(seq(10, _ => Blank()), 0, "", false, false, 0)
  }

  predicate Occupied(m: Message) {
    m.kind != MSG_NULL
  }

  // ---------- handlers ----------

  // The first slot from i on that is not occupied; the length of the table when there is none.
  function FirstFree(slots: seq<Message>, i: nat): (r: nat)
    requires i <= |slots|
    ensures i <= r <= |slots|
    ensures forall j :: i <= j < r ==> Occupied(slots[j])
    ensures r < |slots| ==> !Occupied(slots[r])
    decreases |slots| - i
  {
    if i == |slots| || !Occupied(slots[i]) then i else FirstFree(slots, i + 1)
  }

  // The slots a growth adds: only their kind is set, so junk gives the counters they hold.
  function NewSlot(tries: int): Message {
    Blank().(tries := tries)
  }

  function NewSlots(junk: seq<int>): (r: seq<Message>)
    ensures |r| == |junk| && forall i :: 0 <= i < |junk| ==> r[i] == NewSlot(junk[i])
  {
    seq(|junk|, i requires 0 <= i < |junk| => NewSlot(junk[i]))
  }

  predicate MustGrow(c: Client) {
    c.nb == |c.slots|
  }

  function Roomy(c: Client, junk: seq<int>): Client {
    if MustGrow(c) then c.(slots := c.slots + NewSlots(junk)) else c
  }

  // The slot the next message takes in the roomy table, or the length of that table.
  function NextId(c: Client, junk: seq<int>): (r: nat)
    ensures r <= |Roomy(c, junk).slots|
  {
    FirstFree(Roomy(c, junk).slots, if MustGrow(c) then |c.slots| else 0)
  }

  function ChatLine(held: Message, id: nat, c: Client, data: seq<uint8>, control: seq<uint8>, serial: nat): Message
    requires |control| == |data|
  {
    held.(kind := MSG_STD_CLIENT_SERVER, id := id, pseudo := c.pseudo, flag := c.flag, socket := MSG_NULL,
         data := data, control := control, serial := serial)
  }

  function Send(c: Client, data: seq<uint8>, control: seq<uint8>, junk: seq<int>, serial: nat): Outcome
    requires |control| == |data|
  {
    var c1 := Roomy(c, junk);
    var id := NextId(c, junk);
    if id == |c1.slots| then Fault
    else
      var m := ChatLine(c1.slots[id], id, c, data, control, serial);
      Done(c1.(slots := c1.slots[id := m], nb := c1.nb + 1), [m])
  }

  function Request(text: string, code: seq<uint8>): Message {
    Blank().(kind := MSG_CONNECTION_CLIENT, id := 0, pseudo := text, data := code, control := seq(|code|, _ => 0))
  }

  function Login(c: Client, text: string, code: seq<uint8>): Outcome {
    if |c.slots| == 0 then Fault
    else
      var m := Request(text, code);
      Done(c.(slots := c.slots[0 := m], nb := c.nb + 1, pseudo := text, waiting := true), [m])
  }

  // A typed line: its text, and its bytes with the terminator that replaces the newline.
  // control is what the slot's control buffer holds when the line is sent.
  datatype Line = Line(
    text: string,
    data: seq<uint8>,
    control: seq<uint8>,
    code: seq<uint8>,
    junk: seq<int>,
    serial: nat)

  predicate IsLogin(c: Client, l: Line) {
    c.pseudo == "" && !c.waiting && |l.data| >= MIN_NAME_LENGTH
  }

  predicate LineFits(c: Client, l: Line) {
    |l.data| == |l.text| + 1 == |l.control| && |l.junk| == |c.slots| && (IsLogin(c, l) ==> |l.text| < MAX_NAME_LENGTH)
  }

  predicate IsSend(c: Client) {
    c.pseudo != "" && c.connected
  }

  function OnStdin(c: Client, l: Line): Outcome
    requires LineFits(c, l)
  {
    if IsLogin(c, l) then Login(c, l.text, l.code)
    else if IsSend(c) then Send(c, l.data, l.control, l.junk, l.serial)
    else Done(c, [])
  }

  function Clear(c: Client, id: nat): Client
    requires id < |c.slots|
  {
    c.(slots := c.slots[id := Blank()])
  }

  // While the login is unanswered: an error ends it, a confirmation completes it.
  function OnReply(c: Client, m: Message): Outcome {
    if m.kind == MSG_ERROR then
      var c1 := c.(pseudo := "", waiting := false);
      if 0 <= m.id < c.nb then
        if m.id >= |c.slots| then Fault
        else if Occupied(c.slots[m.id]) then Done(Clear(c1, m.id), [])
        else Done(c1, [])
      else Done(c1, [])
    else if m.kind == MSG_WELL_CONNECTED then Done(c.(connected := true, waiting := false), [])
    else Done(c, [])
  }

  function OnAck(c: Client, m: Message): Outcome {
    if m.id < 0 || m.id > c.nb then Done(c, [])
    else if m.id >= |c.slots| then Fault
    else if !Occupied(c.slots[m.id]) then Done(c, [])
    else if m.kind == MSG_ACK_NEG then
      var again := c.slots[m.id].(tries := m.tries);
      Done(c.(slots := c.slots[m.id := again]), [again])
    else Done(Clear(c, m.id), [])
  }

  function OnMsg(c: Client, m: Message): Outcome {
    if c.waiting then OnReply(c, m)
    else if c.connected && IsAck(m) then OnAck(c, m)
    else Done(c, [])
  }

  // ---------- the table stays in bounds ----------

  ghost predicate Tame(c: Client) {
    && 0 < |c.slots| && c.nb <= |c.slots|
    && forall i :: 0 <= i < |c.slots| && Occupied(c.slots[i]) ==> i < c.nb
  }

  // No name yet, a name that waits for its answer, or connected.
  predicate Phased(c: Client) {
    && (c.waiting ==> !c.connected && c.pseudo != "")
    && (c.connected ==> c.pseudo != "")
    && (!c.waiting && !c.connected ==> c.pseudo == "")
  }

  /** In a tame table the search finds a slot, and the slot it finds is free. */
  lemma TameHasNext(c: Client, junk: seq<int>)
    requires Tame(c) && |junk| == |c.slots|
    ensures var id := NextId(c, junk);
      id <= c.nb && id < |Roomy(c, junk).slots| && !Occupied(Roomy(c, junk).slots[id])
  {
    var c1 := Roomy(c, junk);
    assert !Occupied(c1.slots[c.nb]);
  }

  lemma SendKeepsTame(c: Client, data: seq<uint8>, control: seq<uint8>, junk: seq<int>, serial: nat)
    requires Tame(c) && |junk| == |c.slots| && |control| == |data|
    ensures Send(c, data, control, junk, serial).Done?
    ensures Tame(Send(c, data, control, junk, serial).client)
  {
    TameHasNext(c, junk);
  }

  /** Exactly: with a tame table an acknowledgment makes the client read outside it when it bears
      the number of messages sent and the table is full of them. The bounds test lets it pass. */
  lemma AckFaultsIff(c: Client, m: Message)
    requires Tame(c)
    ensures OnAck(c, m) == Fault <==> m.id == c.nb == |c.slots|
  {
  }

  // The one message a tame client cannot take.
  predicate BadAck(c: Client, m: Message) {
    !c.waiting && c.connected && IsAck(m) && m.id == c.nb == |c.slots|
  }

  /** Every other message leaves the table tame. */
  lemma OnMsgKeepsTame(c: Client, m: Message)
    requires Tame(c) && Phased(c)
    ensures OnMsg(c, m) == Fault <==> BadAck(c, m)
    ensures OnMsg(c, m).Done? ==>
      var c' := OnMsg(c, m).client;
      Tame(c') && Phased(c') && (c.connected ==> c'.connected) && c'.nb == c.nb && |c'.slots| == |c.slots|
  {
    if !c.waiting && c.connected && IsAck(m) {
      AckFaultsIff(c, m);
    }
  }

  // ---------- runs of one client ----------

  datatype Input = Typed(line: Line) | Received(m: Message)

  predicate InputFits(c: Client, i: Input) {
    i.Typed? ==> LineFits(c, i.line)
  }

  function OnInput(c: Client, i: Input): Outcome
    requires InputFits(c, i)
  {
    match i
    case Typed(l) => OnStdin(c, l)
    case Received(m) => OnMsg(c, m)
  }

  // Every input fits the state it meets.
  predicate RunFits(c: Client, ins: seq<Input>)
    decreases |ins|
  {
    ins == [] || (InputFits(c, ins[0]) &&
      match OnInput(c, ins[0])
      case Fault => true
      case Done(c', _) => RunFits(c', ins[1..]))
  }

  function Run(c: Client, ins: seq<Input>): Outcome
    requires RunFits(c, ins)
    decreases |ins|
  {
    if ins == [] then Done(c, [])
    else match OnInput(c, ins[0])
      case Fault => Fault
      case Done(c', _) => Run(c', ins[1..])
  }

  function LoginOf(c: Client, i: Input): nat {
    if i.Typed? && IsLogin(c, i.line) then 1 else 0
  }

  // How many login attempts a run makes.
  function Logins(c: Client, ins: seq<Input>): nat
    requires RunFits(c, ins)
    decreases |ins|
  {
    if ins == [] then 0
    else
      match OnInput(c, ins[0])
      case Fault => LoginOf(c, ins[0])
      case Done(c', _) => LoginOf(c, ins[0]) + Logins(c', ins[1..])
  }

  predicate IsBad(c: Client, i: Input) {
    i.Received? && BadAck(c, i.m)
  }

  // The run comes to an acknowledgment of the slot just past a full table.
  predicate MeetsBadAck(c: Client, ins: seq<Input>)
    requires RunFits(c, ins)
    decreases |ins|
  {
    ins != [] && (IsBad(c, ins[0]) || (OnInput(c, ins[0]).Done? && MeetsBadAck(OnInput(c, ins[0]).client, ins[1..])))
  }

  lemma InputKeepsTame(c: Client, i: Input)
    requires Tame(c) && Phased(c) && InputFits(c, i)
    requires c.nb + LoginOf(c, i) <= |c.slots|
    ensures OnInput(c, i) == Fault <==> IsBad(c, i)
    ensures OnInput(c, i).Done? ==>
      var c' := OnInput(c, i).client;
      && Tame(c') && Phased(c') && (c.connected ==> c'.connected && LoginOf(c, i) == 0)
      && (!c.connected ==> c'.nb == c.nb + LoginOf(c, i) && |c'.slots| == |c.slots|)
  {
    match i
    case Typed(l) =>
      if !IsLogin(c, l) && IsSend(c) {
        SendKeepsTame(c, l.data, l.control, l.junk, l.serial);
      }
    case Received(m) => OnMsgKeepsTame(c, m);
  }

  /** Over any run whose login attempts fit in the table, the search for a slot never panics and every
      occupied slot stays below the counter; the run ends early exactly when it comes to an
      acknowledgment of the slot just past a full table. */
  lemma {:induction false} RunFaultsIff(c: Client, ins: seq<Input>)
    requires Tame(c) && Phased(c) && RunFits(c, ins)
    requires c.connected || c.nb + Logins(c, ins) <= |c.slots|
    ensures Run(c, ins) == Fault <==> MeetsBadAck(c, ins)
    ensures Run(c, ins).Done? ==> Tame(Run(c, ins).client) && Phased(Run(c, ins).client)
    decreases |ins|
  {
    if ins != [] {
      assert c.connected ==> LoginOf(c, ins[0]) == 0;
      InputKeepsTame(c, ins[0]);
      if OnInput(c, ins[0]).Done? {
        RunFaultsIff(OnInput(c, ins[0]).client, ins[1..]);
      }
    }
  }

  /** So it is for a new client that needs at most ten attempts to log in. */
  lemma TenAttemptsAreSafe(ins: seq<Input>)
    requires RunFits(NewClient(), ins) && Logins(NewClient(), ins) <= 10
    ensures Run(NewClient(), ins) == Fault <==> MeetsBadAck(NewClient(), ins)
    ensures Run(NewClient(), ins).Done? ==> Tame(Run(NewClient(), ins).client)
  {
    RunFaultsIff(NewClient(), ins);
  }

  // ---------- more attempts than slots ----------

  function FreeSlots(slots: seq<Message>): (n: nat)
    ensures n <= |slots|
  {
    if slots == [] then 0
    else FreeSlots(slots[..|slots| - 1]) + if Occupied(slots[|slots| - 1]) then 0 else 1
  }

  lemma {:induction false} FillLowersFree(slots: seq<Message>, i: nat, m: Message)
    requires i < |slots| && !Occupied(slots[i]) && Occupied(m)
    ensures FreeSlots(slots[i := m]) == FreeSlots(slots) - 1
    decreases |slots|
  {
    var n := |slots| - 1;
    if i < n {
      FillLowersFree(slots[..n], i, m);
      assert slots[i := m][..n] == slots[..n][i := m];
    } else {
      assert slots[i := m][..n] == slots[..n];
    }
  }

  lemma {:induction false} NoneFree(slots: seq<Message>)
    ensures FreeSlots(slots) == 0 <==> forall i :: 0 <= i < |slots| ==> Occupied(slots[i])
  {
    if slots != [] {
      var n := |slots| - 1;
      NoneFree(slots[..n]);
      assert forall i :: 0 <= i < n ==> slots[..n][i] == slots[i];
    }
  }

  lemma SendUsesSlot(c: Client, l: Line)
    requires IsSend(c) && c.nb > |c.slots| && LineFits(c, l)
    ensures OnStdin(c, l) == Fault <==> FreeSlots(c.slots) == 0
    ensures OnStdin(c, l).Done? ==>
      var c' := OnStdin(c, l).client;
      IsSend(c') && c'.nb > |c'.slots| && FreeSlots(c'.slots) == FreeSlots(c.slots) - 1
  {
    NoneFree(c.slots);
    var id := NextId(c, l.junk);
    if id < |c.slots| {
      FillLowersFree(c.slots, id, ChatLine(c.slots[id], id, c, l.data, l.control, l.serial));
    }
  }

  /** Exactly when the counter has passed the table, as after an eleventh attempt, it never
      grows: lines sent without an answer end the program when there are more than free slots. */
  lemma {:induction false} OverrunPanicsIff(c: Client, ins: seq<Input>)
    requires IsSend(c) && c.nb > |c.slots| && RunFits(c, ins)
    requires forall i :: 0 <= i < |ins| ==> ins[i].Typed?
    ensures Run(c, ins) == Fault <==> |ins| > FreeSlots(c.slots)
    decreases |ins|
  {
    if ins != [] {
      SendUsesSlot(c, ins[0].line);
      if OnInput(c, ins[0]).Done? {
        OverrunPanicsIff(OnInput(c, ins[0]).client, ins[1..]);
      }
    }
  }

  lemma ClearRaisesFree(slots: seq<Message>, i: nat, m: Message)
    requires i < |slots| && !Occupied(m)
    ensures FreeSlots(slots[i := m]) == FreeSlots(slots) + if Occupied(slots[i]) then 1 else 0
    decreases |slots|
  {
    var n := |slots| - 1;
    if i < n {
      ClearRaisesFree(slots[..n], i, m);
      assert slots[i := m][..n] == slots[..n][i := m];
    } else {
      assert slots[i := m][..n] == slots[..n];
    }
  }

  lemma SwapKeepsFree(slots: seq<Message>, i: nat, m: Message)
    requires i < |slots| && Occupied(m) == Occupied(slots[i])
    ensures FreeSlots(slots[i := m]) == FreeSlots(slots)
    decreases |slots|
  {
    var n := |slots| - 1;
    if i < n {
      SwapKeepsFree(slots[..n], i, m);
      assert slots[i := m][..n] == slots[..n][i := m];
    } else {
      assert slots[i := m][..n] == slots[..n];
    }
  }

  // A positive acknowledgment that finds its slot occupied.
  predicate Frees(c: Client, i: Input) {
    i.Received? && i.m.kind == MSG_ACK_POS && 0 <= i.m.id < |c.slots| && Occupied(c.slots[i.m.id])
  }

  lemma OverrunInput(c: Client, i: Input)
    requires IsSend(c) && !c.waiting && c.nb > |c.slots| && InputFits(c, i)
    ensures OnInput(c, i) == Fault <==>
      if i.Typed? then FreeSlots(c.slots) == 0 else IsAck(i.m) && |c.slots| <= i.m.id <= c.nb
    ensures OnInput(c, i).Done? ==>
      var c' := OnInput(c, i).client;
      && IsSend(c') && !c'.waiting && c'.nb > |c'.slots|
      && FreeSlots(c'.slots) == FreeSlots(c.slots) + (if i.Typed? then -1 else if Frees(c, i) then 1 else 0)
  {
    match i
    case Typed(l) => SendUsesSlot(c, l);
    case Received(m) =>
      if IsAck(m) && 0 <= m.id < |c.slots| && Occupied(c.slots[m.id]) {
        ClearRaisesFree(c.slots, m.id, Blank());
        SwapKeepsFree(c.slots, m.id, c.slots[m.id].(tries := m.tries));
      }
  }

  // Lines typed less slots freed in a run.
  function Spent(c: Client, ins: seq<Input>): int
    requires RunFits(c, ins) && Run(c, ins).Done?
    decreases |ins|
  {
    if ins == [] then 0
    else (if ins[0].Typed? then 1 else if Frees(c, ins[0]) then -1 else 0) + Spent(OnInput(c, ins[0]).client, ins[1..])
  }

  /** The same with acknowledgments on the way: after any run the next line ends the program exactly
      when the lines typed outnumber the slots freed by as many as were free at first. */
  lemma {:induction false} OverrunSpent(c: Client, ins: seq<Input>, l: Line)
    requires IsSend(c) && !c.waiting && c.nb > |c.slots| && RunFits(c, ins) && Run(c, ins).Done?
    requires LineFits(Run(c, ins).client, l)
    ensures OnStdin(Run(c, ins).client, l) == Fault <==> Spent(c, ins) == FreeSlots(c.slots)
    decreases |ins|
  {
    if ins == [] {
      OverrunInput(c, Typed(l));
    } else {
      OverrunInput(c, ins[0]);
      OverrunSpent(OnInput(c, ins[0]).client, ins[1..], l);
    }
  }

  // ---------- how a client gets there ----------

  // A name typed, and what answers it.
  function Attempt(l: Line, answer: int): seq<Input> {
    [Typed(l), Received(Blank().(kind := answer))]
  }

  // k failures and a success.
  function Attempts(l: Line, k: nat): seq<Input> {
    if k == 0 then Attempt(l, MSG_WELL_CONNECTED) + [] else Attempt(l, MSG_ERROR) + Attempts(l, k - 1)
  }

  // A client that may log in with l, with its first slot used or not.
  predicate MayLogin(c: Client, l: Line) {
    && c.pseudo == "" && !c.waiting && !c.connected && |c.slots| > 1 && LineFits(c, l) && IsLogin(c, l)
    && l.text != "" && forall i :: 0 < i < |c.slots| ==> !Occupied(c.slots[i])
  }

  // The client after an attempt.
  function Answered(c: Client, l: Line, answer: int): Client
    requires |c.slots| > 0
  {
    var c1 := c.(slots := c.slots[0 := Request(l.text, l.code)], nb := c.nb + 1);
    if answer == MSG_ERROR then c1 else c1.(pseudo := l.text, connected := true)
  }

  lemma AttemptCounts(c: Client, l: Line, answer: int, rest: seq<Input>)
    requires MayLogin(c, l) && (answer == MSG_ERROR || answer == MSG_WELL_CONNECTED)
    requires RunFits(Answered(c, l, answer), rest)
    ensures RunFits(c, Attempt(l, answer) + rest)
    ensures Run(c, Attempt(l, answer) + rest) == Run(Answered(c, l, answer), rest)
    ensures Logins(c, Attempt(l, answer) + rest) == 1 + Logins(Answered(c, l, answer), rest)
  {
    var ins := Attempt(l, answer) + rest;
    var c1 := Login(c, l.text, l.code).client;
    assert ins[1..][1..] == rest;
    assert OnInput(c, ins[0]) == Done(c1, [Request(l.text, l.code)]);
    assert OnInput(c1, ins[1..][0]) == Done(Answered(c, l, answer), []);
  }

  lemma {:induction false} AttemptsCount(c: Client, l: Line, k: nat)
    requires MayLogin(c, l)
    ensures RunFits(c, Attempts(l, k)) && Logins(c, Attempts(l, k)) == k + 1 && Run(c, Attempts(l, k)).Done?
    ensures var c' := Run(c, Attempts(l, k)).client;
      && IsSend(c') && !c'.waiting && c'.nb == c.nb + k + 1 && |c'.slots| == |c.slots|
      && forall i :: 0 <= i < |c'.slots| ==> (Occupied(c'.slots[i]) <==> i == 0)
    decreases k
  {
    if k == 0 {
      AttemptCounts(c, l, MSG_WELL_CONNECTED, []);
    } else {
      AttemptsCount(Answered(c, l, MSG_ERROR), l, k - 1);
      AttemptCounts(c, l, MSG_ERROR, Attempts(l, k - 1));
    }
  }

  lemma {:induction false} FreeButFirst(slots: seq<Message>)
    requires |slots| > 0 && forall i :: 0 <= i < |slots| ==> (Occupied(slots[i]) <==> i == 0)
    ensures FreeSlots(slots) == |slots| - 1
    decreases |slots|
  {
    if |slots| > 1 {
      FreeButFirst(slots[..|slots| - 1]);
    }
  }

  /** A new client whose login succeeds at the k-th attempt has counted k messages in a table of ten,
      nine of them free: exactly from the eleventh attempt on the counter has passed the table. */
  lemma LateLoginOverruns(l: Line, k: nat)
    requires MayLogin(NewClient(), l) && k > 0
    ensures RunFits(NewClient(), Attempts(l, k - 1)) && Run(NewClient(), Attempts(l, k - 1)).Done?
    ensures Logins(NewClient(), Attempts(l, k - 1)) == k
    ensures var c := Run(NewClient(), Attempts(l, k - 1)).client;
      && IsSend(c) && !c.waiting && c.nb == k && |c.slots| == 10 && FreeSlots(c.slots) == 9
      && (c.nb > |c.slots| <==> k >= 11)
  {
    AttemptsCount(NewClient(), l, k - 1);
    FreeButFirst(Run(NewClient(), Attempts(l, k - 1)).client.slots);
  }

  // ---------- the read outside the table ----------

  // k lines, and an acknowledgment.
  function LinesThenAck(l: Line, k: nat, m: Message): seq<Input> {
    if k == 0 then [Received(m)] else [Typed(l)] + LinesThenAck(l, k - 1, m)
  }

  lemma SendCounts(c: Client, l: Line)
    requires Tame(c) && Phased(c) && IsSend(c) && !c.waiting && LineFits(c, l) && c.nb < |c.slots|
    ensures OnStdin(c, l).Done?
    ensures var c' := OnStdin(c, l).client;
      && Tame(c') && Phased(c') && IsSend(c') && !c'.waiting && LineFits(c', l)
      && c'.nb == c.nb + 1 && |c'.slots| == |c.slots|
  {
    SendKeepsTame(c, l.data, l.control, l.junk, l.serial);
  }

  /** Lines that fill the table without growing it, and then an acknowledgment of the slot just past
      it: the client reads outside its table. */
  lemma {:induction false} FullTableFaults(c: Client, l: Line, k: nat, m: Message)
    requires Tame(c) && Phased(c) && IsSend(c) && !c.waiting && LineFits(c, l)
    requires c.nb + k == |c.slots| && IsAck(m) && m.id == |c.slots|
    ensures RunFits(c, LinesThenAck(l, k, m)) && Run(c, LinesThenAck(l, k, m)) == Fault
    ensures MeetsBadAck(c, LinesThenAck(l, k, m))
    decreases k
  {
    if k > 0 {
      SendCounts(c, l);
      assert LinesThenAck(l, k, m)[1..] == LinesThenAck(l, k - 1, m);
      FullTableFaults(OnStdin(c, l).client, l, k - 1, m);
    }
  }

  /** A new client gets there by one login and nine lines. */
  lemma NineLinesThenAck(l: Line, m: Message)
    requires MayLogin(NewClient(), l) && IsAck(m) && m.id == 10
    ensures var ins := Attempt(l, MSG_WELL_CONNECTED) + LinesThenAck(l, 9, m);
      RunFits(NewClient(), ins) && Run(NewClient(), ins) == Fault
  {
    var c := Answered(NewClient(), l, MSG_WELL_CONNECTED);
    FullTableFaults(c, l, 9, m);
    AttemptCounts(NewClient(), l, MSG_WELL_CONNECTED, LinesThenAck(l, 9, m));
  }
}
