/**
 The server: who is connected under which name, who may connect, and the answer to a chat line.
 */
module Registry {
  import opened Bits
  import opened Counting
  import opened ChatMessages
  import opened MessageCoding

  const NB_MAX_CONNECTED_CLIENTS: nat := 196
  const TIMEOUT_INACTIVE: int := 30
  const MAX_RETRANSMISSION: int := 5

  datatype Session = Session(connected: bool, pseudo: string, lastActivity: int, socket: int)

  // index stands for the hash map from names to slots of the array of clients, codes for the
  // stored code files.
  datatype Server = Server(
    clients: seq<Option<Session>>,
    index: map<string, nat>,
    codes: map<string, seq<uint8>>)

  function NewServer(codes: map<string, seq<uint8>>): Server {
    Server(seq(NB_MAX_CONNECTED_CLIENTS, _ => None), map[], codes)
  }

  // ---------- invariant ----------

  // Names and slots agree both ways.
  ghost predicate Agree(clients: seq<Option<Session>>, index: map<string, nat>) {
    && (forall p :: p in index ==>
          index[p] < |clients| && clients[index[p]].Some? && clients[index[p]].value.pseudo == p)
    && (forall i :: 0 <= i < |clients| && clients[i].Some? ==>
          clients[i].value.pseudo in index && index[clients[i].value.pseudo] == i)
  }

  // A name the hash map can store.
  predicate NameOk(p: string) {
    MIN_NAME_LENGTH <= |p| < MAX_NAME_LENGTH
  }

  ghost predicate Valid(s: Server) {
    && |s.clients| == NB_MAX_CONNECTED_CLIENTS
    && Agree(s.clients, s.index)
    && forall p :: p in s.index ==> NameOk(p) && p in s.codes
  }

  // ---------- handlers ----------

  // The slot found for a name. A name that leads nowhere is taken out of the index.
  function Lookup(s: Server, p: string): (Server, Option<nat>) {
    if p !in s.index then (s, None)
    else if s.index[p] < |s.clients| && s.clients[s.index[p]].Some? then (s, Some(s.index[p]))
    else (s.(index := s.index - {p}), None)
  }

  function FirstEmpty(clients: seq<Option<Session>>, i: nat): (r: nat)
    requires i <= |clients|
    ensures i <= r <= |clients|
    ensures forall j :: i <= j < r ==> clients[j].Some?
    ensures r < |clients| ==> clients[r].None?
    decreases |clients| - i
  {
    if i == |clients| || clients[i].None? then i else FirstEmpty(clients, i + 1)
  }

  function Reply(m: Message, kind: int): Message {
    Blank().(kind := kind, socket := m.socket)
  }

  // The code sent is not the one stored.
  predicate WrongCode(s: Server, m: Message) {
    m.pseudo in s.codes && s.codes[m.pseudo] != m.data
  }

  // A session under this name was set up less than the timeout ago. Only a name that has a code
  // stored is looked at.
  predicate StillActive(s: Server, m: Message, at: Option<nat>, now: int)
    requires at.Some? ==> at.value < |s.clients| && s.clients[at.value].Some?
  {
    && m.pseudo in s.codes && at.Some?
    && s.clients[at.value].value.connected
    && now - s.clients[at.value].value.lastActivity < TIMEOUT_INACTIVE
  }

  function Admit(s: Server, m: Message, i: nat, session: Session): (Server, seq<Message>)
    requires i < |s.clients|
  {
    (s.(clients := s.clients[i := Some(session)], codes := s.codes[m.pseudo := m.data]),
     [Reply(m, MSG_WELL_CONNECTED)])
  }

  function AdmitNew(s: Server, m: Message, now: int): (Server, seq<Message>) {
    var i := FirstEmpty(s.clients, 0);
    if i == |s.clients| then (s, [Reply(m, MSG_ERROR)])
    else Admit(s.(index := s.index[m.pseudo := i]), m, i, Session(true, m.pseudo, now, m.socket))
  }

  function OnConnection(s0: Server, m: Message, now: int): (Server, seq<Message>) {
    var (s, at) := Lookup(s0, m.pseudo);
    if WrongCode(s, m) || StillActive(s, m, at, now) then (s, [Reply(m, MSG_ERROR)])
    else if at.Some? then
      Admit(s, m, at.value, Session(true, s.clients[at.value].value.pseudo, now, m.socket))
    else AdmitNew(s, m, now)
  }

  function PositiveAck(m: Message): Message {
    Blank().(kind := MSG_ACK_POS, id := m.id, socket := m.socket, tries := m.tries, serial := m.serial)
  }

  function NegativeAck(m: Message): Message {
    Blank().(kind := MSG_ACK_NEG, id := m.id, socket := m.socket, tries := m.tries + 1, serial := m.serial)
  }

  // The bytes after correction, and the return code of correction.
  function Corrected(g: Corrector, m: Message): seq<uint8> {
    CorrectedData(g, m.data, m.control)
  }

  function Verdict(g: Corrector, m: Message): int {
    ReturnCode(Flagged(g, m.data, m.control))
  }

  // A chat line is taken when it could be corrected, or was sent often enough.
  predicate Accepts(g: Corrector, m: Message) {
    Verdict(g, m) == 0 || m.tries > MAX_RETRANSMISSION
  }

  // What the others are told of m, of which text is left after correction.
  function Announcement(m: Message, text: seq<uint8>): Message {
    Blank().(kind := MSG_SERVER_CLIENT, pseudo := m.pseudo, data := text, control := seq(|text|, _ => 0),
             serial := m.serial)
  }

  // One copy for each of the first n clients that is connected.
  function Broadcast(clients: seq<Option<Session>>, n: nat, a: Message): (r: seq<Message>)
    requires n <= |clients|
    ensures |r| <= n
  {
    if n == 0 then []
    else
      var rest := Broadcast(clients, n - 1, a);
      if clients[n - 1].Some? && clients[n - 1].value.connected
      then rest + [a.(socket := clients[n - 1].value.socket)]
      else rest
  }

  // The answer to a chat line that correction left as text, returning rc.
  function Answer(clients: seq<Option<Session>>, m: Message, rc: int, text: seq<uint8>): seq<Message> {
    if rc != 0 && m.tries <= MAX_RETRANSMISSION then [NegativeAck(m)]
    else if m.flag == 0 then [PositiveAck(m)] + Broadcast(clients, |clients|, Announcement(m, text))
    else [PositiveAck(m)]
  }

  function OnChat(s0: Server, m: Message, g: Corrector): (Server, seq<Message>) {
    var (s, at) := Lookup(s0, m.pseudo);
    (s, Answer(s.clients, m, Verdict(g, m), Corrected(g, m)))
  }

  function OnMsg(s: Server, m: Message, now: int, g: Corrector): (Server, seq<Message>) {
    if |m.pseudo| < MIN_NAME_LENGTH then (s, [])
    else if m.kind == MSG_CONNECTION_CLIENT then OnConnection(s, m, now)
    else if m.kind == MSG_STD_CLIENT_SERVER then OnChat(s, m, g)
    else (s, [])
  }

  // ---------- properties ----------

  lemma NewServerIsValid(codes: map<string, seq<uint8>>)
    ensures Valid(NewServer(codes))
  {
  }

  /** In a valid state the branches that take a bad value out of the index are never taken. */
  lemma NoBadValue(s: Server, p: string)
    requires Valid(s)
    ensures Lookup(s, p) == (s, if p in s.index then Some(s.index[p]) else None)
  {
  }

  lemma AdmitKeepsValid(s: Server, m: Message, i: nat, session: Session)
    requires |s.clients| == NB_MAX_CONNECTED_CLIENTS && i < |s.clients| && NameOk(m.pseudo)
    requires session.pseudo == m.pseudo && forall p :: p in s.index && p != m.pseudo ==> NameOk(p) && p in s.codes
    requires m.pseudo in s.index && s.index[m.pseudo] == i
    requires forall p :: p in s.index && p != m.pseudo ==>
      s.index[p] < |s.clients| && s.index[p] != i
      && s.clients[s.index[p]].Some? && s.clients[s.index[p]].value.pseudo == p
    requires forall j :: 0 <= j < |s.clients| && j != i && s.clients[j].Some? ==>
      s.clients[j].value.pseudo in s.index && s.index[s.clients[j].value.pseudo] == j
    ensures Valid(Admit(s, m, i, session).0)
  {
  }

  lemma OnConnectionKeepsValid(s: Server, m: Message, now: int)
    requires Valid(s) && NameOk(m.pseudo)
    ensures Valid(OnConnection(s, m, now).0)
  {
    NoBadValue(s, m.pseudo);
    if m.pseudo in s.index {
      AdmitKeepsValid(s, m, s.index[m.pseudo], Session(true, m.pseudo, now, m.socket));
    } else {
      var i := FirstEmpty(s.clients, 0);
      if i < |s.clients| {
        AdmitKeepsValid(s.(index := s.index[m.pseudo := i]), m, i, Session(true, m.pseudo, now, m.socket));
      }
    }
  }

  /** The names and the array agree both ways in every state a message leads to. */
  lemma OnMsgKeepsValid(s: Server, m: Message, now: int, g: Corrector)
    requires Valid(s) && |m.pseudo| < MAX_NAME_LENGTH
    ensures Valid(OnMsg(s, m, now, g).0)
  {
    NoBadValue(s, m.pseudo);
    if NameOk(m.pseudo) && m.kind == MSG_CONNECTION_CLIENT {
      OnConnectionKeepsValid(s, m, now);
    }
  }

  // Names held by distinct slots: at most one for each slot.
  lemma IndexIsSmall(s: Server)
    requires Valid(s)
    ensures |s.index| <= NB_MAX_CONNECTED_CLIENTS
  {
    NamesFit(s.clients, s.index, s.index.Keys, |s.clients|);
  }

  lemma {:induction false} NamesFit(clients: seq<Option<Session>>, index: map<string, nat>, names: set<string>, n: nat)
    requires Agree(clients, index) && n <= |clients| && names <= index.Keys
    requires forall p :: p in names ==> index[p] < n
    ensures |names| <= n
  {
    if names != {} {
      assert n > 0 by {
        var p :| p in names;
        assert index[p] < n;
      }
      var held := if clients[n - 1].Some? then {clients[n - 1].value.pseudo} else {};
      NamesFit(clients, index, names - held, n - 1);
      SubsetCardinality(names, (names - held) + held);
    }
  }

  // What lets a login in.
  ghost predicate Admissible(s: Server, m: Message, now: int)
    requires Valid(s)
  {
    && (m.pseudo in s.codes ==> s.codes[m.pseudo] == m.data)
    && (if m.pseudo in s.index then
          var held := s.clients[s.index[m.pseudo]].value;
          !held.connected || now - held.lastActivity >= TIMEOUT_INACTIVE
        else exists i :: 0 <= i < |s.clients| && s.clients[i].None?)
  }

  /** A login is answered with a confirmation exactly when it bears the stored code, if there is
      one, and the name is free, in a table that is not full, or its session has gone stale.
      Otherwise the answer is an error and nothing changes. */
  lemma LoginVerdict(s: Server, m: Message, now: int)
    requires Valid(s) && NameOk(m.pseudo)
    ensures var (s', out) := OnConnection(s, m, now);
      if Admissible(s, m, now) then
        && out == [Reply(m, MSG_WELL_CONNECTED)]
        && s'.codes == s.codes[m.pseudo := m.data]
        && s'.index.Keys == s.index.Keys + {m.pseudo} && s'.index[m.pseudo] < |s'.clients|
        && s'.clients[s'.index[m.pseudo]] == Some(Session(true, m.pseudo, now, m.socket))
        && (forall p :: p in s.index && p != m.pseudo ==>
              p in s'.index && s'.index[p] == s.index[p] && s'.clients[s.index[p]] == s.clients[s.index[p]])
      else s' == s && out == [Reply(m, MSG_ERROR)]
  {
    NoBadValue(s, m.pseudo);
    var i := FirstEmpty(s.clients, 0);
  }

  // ---------- when a login is let in ----------

  /** A session that is connected keeps its name for thirty seconds after it was set up. To the second: the
      right code is confirmed from then on, and refused before. */
  lemma StaleAfterThirty(s: Server, m: Message, now: int)
    requires Valid(s) && NameOk(m.pseudo) && m.pseudo in s.index && s.codes[m.pseudo] == m.data
    requires s.clients[s.index[m.pseudo]].value.connected
    ensures OnConnection(s, m, now).1 ==
      [Reply(m, if now - s.clients[s.index[m.pseudo]].value.lastActivity >= 30 then 8 else 4)]
  {
    LoginVerdict(s, m, now);
  }

  lemma SomeEmptyIff(s: Server)
    requires Valid(s)
    ensures |s.index| < 196 <==> exists i :: 0 <= i < |s.clients| && s.clients[i].None?
  {
    IndexIsSmall(s);
    if forall i :: 0 <= i < |s.clients| ==> s.clients[i].Some? {
      NamesFill(s.clients, s.index, |s.clients|);
    } else {
      var i :| 0 <= i < |s.clients| && s.clients[i].None?;
      NamesLeaveOut(s, i);
    }
  }

  // The names in the first n slots.
  function NamesBelow(clients: seq<Option<Session>>, n: nat): seq<string>
    requires n <= |clients| && forall i :: 0 <= i < n ==> clients[i].Some?
  {
    seq(n, i requires 0 <= i < n => clients[i].value.pseudo)
  }

  lemma NamesFill(clients: seq<Option<Session>>, index: map<string, nat>, n: nat)
    requires Agree(clients, index) && n == |clients| && forall i :: 0 <= i < n ==> clients[i].Some?
    ensures |index| >= n
  {
    var names := NamesBelow(clients, n);
    forall i, j | 0 <= i < j < n ensures names[i] != names[j] {
      assert index[names[i]] == i && index[names[j]] == j;
    }
    DistinctCardinality(names);
    SubsetCardinality((set p | p in names), index.Keys);
    assert |index| == |index.Keys|;
  }

  // With slot i empty the names fit in the others.
  lemma NamesLeaveOut(s: Server, i: nat)
    requires Valid(s) && i < |s.clients| && s.clients[i].None?
    ensures |s.index| < NB_MAX_CONNECTED_CLIENTS
  {
    NamesFitAround(s.clients, s.index, s.index.Keys, |s.clients|, i);
    assert |s.index| == |s.index.Keys|;
  }

  // The names that are not in slot n - 1.
  lemma NamesBefore(clients: seq<Option<Session>>, index: map<string, nat>, names: set<string>, n: nat)
    returns (rest: set<string>)
    requires Agree(clients, index) && 0 < n <= |clients| && names <= index.Keys
    requires forall p :: p in names ==> index[p] < n
    ensures rest <= names && (forall p :: p in rest ==> index[p] < n - 1)
    ensures |names| <= |rest| + 1 && (clients[n - 1].None? ==> rest == names)
  {
    var held := if clients[n - 1].Some? then {clients[n - 1].value.pseudo} else {};
    rest := names - held;
    SubsetCardinality(names, rest + held);
    assert clients[n - 1].None? ==> rest == names;
  }

  lemma {:induction false} NamesFitAround(clients: seq<Option<Session>>, index: map<string, nat>,
                                          names: set<string>, n: nat, e: nat)
    requires Agree(clients, index) && e < n <= |clients| && names <= index.Keys && clients[e].None?
    requires forall p :: p in names ==> index[p] < n
    ensures |names| < n
  {
    var rest := NamesBefore(clients, index, names, n);
    if n - 1 == e {
      NamesFit(clients, index, rest, n - 1);
    } else {
      NamesFitAround(clients, index, rest, n - 1, e);
    }
  }

  /** A name without a session is let in with the stored code, if there is one, exactly while fewer than 196
      names are; it takes the first empty slot. */
  lemma NewNameVerdict(s: Server, m: Message, now: int)
    requires Valid(s) && NameOk(m.pseudo) && m.pseudo !in s.index
    requires m.pseudo in s.codes ==> s.codes[m.pseudo] == m.data
    ensures OnConnection(s, m, now).1 == [Reply(m, if |s.index| < 196 then 8 else 4)]
    ensures |s.index| < 196 ==>
      var s' := OnConnection(s, m, now).0;
      && m.pseudo in s'.index && s'.index[m.pseudo] < |s.clients| && s.clients[s'.index[m.pseudo]].None?
      && forall i :: 0 <= i < s'.index[m.pseudo] ==> s.clients[i].Some?
  {
    LoginVerdict(s, m, now);
    SomeEmptyIff(s);
    NoBadValue(s, m.pseudo);
  }

  /** A stored code never changes. */
  lemma CodesStay(s: Server, m: Message, now: int, g: Corrector, p: string)
    requires p in s.codes
    ensures p in OnMsg(s, m, now, g).0.codes && OnMsg(s, m, now, g).0.codes[p] == s.codes[p]
  {
  }

  // A connected session in one of the first n slots, reached by that socket.
  ghost predicate Connected(clients: seq<Option<Session>>, n: nat, socket: int)
    requires n <= |clients|
  {
    exists i :: 0 <= i < n && clients[i].Some? && clients[i].value.connected && clients[i].value.socket == socket
  }

  /** A broadcast holds copies of the announcement, to every connected session and to no other. */
  lemma {:induction false} BroadcastIs(clients: seq<Option<Session>>, n: nat, a: Message)
    requires n <= |clients|
    ensures forall m ::
      m in Broadcast(clients, n, a) <==> m == a.(socket := m.socket) && Connected(clients, n, m.socket)
  {
    if n > 0 {
      BroadcastIs(clients, n - 1, a);
      var rest := Broadcast(clients, n - 1, a);
      forall socket: int
        ensures Connected(clients, n, socket) ==
          (Connected(clients, n - 1, socket)
           || (clients[n - 1].Some? && clients[n - 1].value.connected && clients[n - 1].value.socket == socket))
      {
      }
    }
  }
}
