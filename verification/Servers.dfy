/**
 The server as the program runs it: an array of clients and a hash map from names to its slots,
 both changed in place.
 */
module Servers {
  import opened Bits
  import opened ChatMessages
  import opened Correction
  import opened MessageCoding
  import T = HashTable
  import R = Registry
  import H = Hashmaps

  // A table that has never grown nor lost a key, with fewer names than the array has slots.
  ghost predicate Ample(h: T.HashFn, t: T.Table, size: nat) {
    T.Valid(h, t) && |t.items| == size && T.NoTombstones(t.items) && 4 * t.count < 3 * size
  }

  /** An ample table takes any name without growing: the loop meets a free slot. */
  lemma AmpleTakesName(h: T.HashFn, t: T.Table, key: string, value: nat, size: nat)
    requires Ample(h, t, size) && T.Storable(key)
    ensures !T.Overloaded(t) && T.Insertable(h, t, key)
    ensures var r := T.Insert(h, t, key, value);
      && T.Valid(h, r.0) && |r.0.items| == size && T.NoTombstones(r.0.items)
      && (key !in T.Contents(t.items) ==> r.1 == 1 && T.Contents(r.0.items) == T.Contents(t.items)[key := value])
  {
    T.RoomIsNull(t.items);
    T.LoopEndsIff(h, t, key);
    T.InsertInPlaceIsMapInsert(h, t, key, value);
    T.InsertInPlaceAddsNoTombstone(h, t, key, value);
  }

  lemma NamesAreStorable(p: string)
    requires R.NameOk(p)
    ensures T.Storable(p)
  {
  }

  class ServerState {
    const hm: H.Hashmap
    const clients: array<Option<R.Session>>
    var codes: map<string, seq<uint8>>

    ghost predicate Shape()
      reads this, clients, hm, hm.items
    {
      && clients.Length == R.NB_MAX_CONNECTED_CLIENTS && clients as object != hm.items as object
      && hm.Valid()
    }

    ghost function Abs(): R.Server
      requires Shape()
      reads this, clients, hm, hm.items
    {
      R.Server(clients[..], hm.Map(), codes)
    }

    ghost predicate Valid()
      reads this, clients, hm, hm.items
    {
      && Shape() && R.Valid(Abs())
      && T.NoTombstones(hm.items[..]) && 2 * R.NB_MAX_CONNECTED_CLIENTS <= hm.size
    }

    constructor (h: T.HashFn, codes: map<string, seq<uint8>>)
      ensures Valid() && Abs() == R.NewServer(codes)
      ensures fresh(hm) && fresh(hm.items) && fresh(clients)
    {
      this.codes := codes;
      clients := new Option<R.Session>[R.NB_MAX_CONNECTED_CLIENTS](_ => None);
      hm := new H.Hashmap.Create(h, R.NB_MAX_CONNECTED_CLIENTS * 2);
      new;
      R.NewServerIsValid(codes);
      T.EmptyTableIsValid(h, hm.size);
      assert clients[..] == R.NewServer(codes).clients;
    }

    lemma NamesLeaveRoom()
      requires Valid()
      ensures Ample(hm.h, hm.Abs(), hm.size)
    {
      R.IndexIsSmall(Abs());
    }

    method Forget(p: string)
      requires Shape() && R.NameOk(p)
      modifies hm, hm.items
      ensures Shape() && Abs() == old(Abs()).(index := old(Abs()).index - {p})
    {
      NamesAreStorable(p);
      var v := hm.Remove(p);
    }

    // A name that leads nowhere is removed; that a valid state never has one is NoBadValue.
    method Lookup(p: string) returns (at: Option<nat>)
      requires Shape() && R.NameOk(p)
      modifies hm, hm.items
      ensures Shape() && (Abs(), at) == R.Lookup(old(Abs()), p)
      ensures old(R.Lookup(Abs(), p).0 == Abs()) ==> hm.items == old(hm.items) && unchanged(hm, hm.items)
    {
      at := None;
      NamesAreStorable(p);
      var pos := hm.Find(p);
      if pos != -1 {
        var i := hm.Get(p);
        if i < R.NB_MAX_CONNECTED_CLIENTS {
          if clients[i].Some? {
            at := Some(i);
          } else {
            Forget(p);
          }
        } else {
          Forget(p);
        }
      }
    }

    // Lookup where every name leads somewhere.
    method Seek(p: string) returns (at: Option<nat>)
      requires Valid() && R.NameOk(p)
      modifies hm, hm.items
      ensures hm.items == old(hm.items) && unchanged(hm, hm.items)
      ensures at == if p in Abs().index then Some(Abs().index[p]) else None
    {
      R.NoBadValue(Abs(), p);
      at := Lookup(p);
    }

    method FindEmpty() returns (i: nat)
      requires Shape()
      ensures i == R.FirstEmpty(clients[..], 0)
    {
      i := 0;
      while i < clients.Length && clients[i].Some?
        invariant 0 <= i <= clients.Length && R.FirstEmpty(clients[..], 0) == R.FirstEmpty(clients[..], i)
      {
        i := i + 1;
      }
    }

    // A new session in slot i, and its name in the hash map.
    method AddName(p: string, i: nat)
      requires Valid() && R.NameOk(p) && p !in Abs().index && i < clients.Length
      modifies hm, hm.items
      ensures Shape() && Abs() == old(Abs()).(index := old(Abs()).index[p := i])
      ensures T.NoTombstones(hm.items[..]) && hm.size == old(hm.size) && hm.items == old(hm.items)
    {
      NamesLeaveRoom();
      NamesAreStorable(p);
      AmpleTakesName(hm.h, hm.Abs(), p, i, hm.size);
      var added := hm.Insert(p, i);
    }

    method Admit(m: Message, i: nat, session: R.Session) returns (out: seq<Message>)
      requires Shape() && i < clients.Length
      modifies this, clients
      ensures Shape() && (Abs(), out) == R.Admit(old(Abs()), m, i, session)
    {
      clients[i] := Some(session);
      codes := codes[m.pseudo := m.data];
      out := [R.Reply(m, MSG_WELL_CONNECTED)];
      assert clients[..] == old(clients[..])[i := Some(session)];
    }

    method Refuses(m: Message, at: Option<nat>, now: int) returns (no: bool)
      requires Shape() && (at.Some? ==> at.value < clients.Length && clients[at.value].Some?)
      ensures no <==> R.WrongCode(Abs(), m) || R.StillActive(Abs(), m, at, now)
    {
      if m.pseudo in codes {
        if codes[m.pseudo] != m.data {
          return true;
        } else if at.Some? && clients[at.value].value.connected {
          if now - clients[at.value].value.lastActivity >= R.TIMEOUT_INACTIVE {
            // The older session is replaced.
          } else {
            return true;
          }
        }
      }
      return false;
    }

    method AdmitNew(m: Message, now: int) returns (out: seq<Message>)
      requires Valid() && R.NameOk(m.pseudo) && m.pseudo !in Abs().index
      modifies this, clients, hm, hm.items
      ensures Shape() && (Abs(), out) == R.AdmitNew(old(Abs()), m, now)
      ensures T.NoTombstones(hm.items[..]) && hm.size == old(hm.size)
    {
      var i := FindEmpty();
      if i == clients.Length {
        return [R.Reply(m, MSG_ERROR)];
      }
      AddName(m.pseudo, i);
      out := Admit(m, i, R.Session(true, m.pseudo, now, m.socket));
    }

    method OnConnection(m: Message, now: int) returns (out: seq<Message>)
      requires Valid() && R.NameOk(m.pseudo)
      modifies this, clients, hm, hm.items
      ensures Valid() && (Abs(), out) == R.OnConnection(old(Abs()), m, now)
    {
      R.NoBadValue(Abs(), m.pseudo);
      R.OnConnectionKeepsValid(Abs(), m, now);
      var at := Seek(m.pseudo);
      var no := Refuses(m, at, now);
      if no {
        return [R.Reply(m, MSG_ERROR)];
      }
      if at.Some? {
        out := Admit(m, at.value, R.Session(true, clients[at.value].value.pseudo, now, m.socket));
      } else {
        out := AdmitNew(m, now);
      }
    }

    method Broadcast(a: Message) returns (out: seq<Message>)
      requires Shape()
      ensures out == R.Broadcast(clients[..], clients.Length, a)
    {
      out := [];
      for i := 0 to clients.Length
        invariant out == R.Broadcast(clients[..], i, a)
      {
        if clients[i].Some? {
          if clients[i].value.connected {
            out := out + [a.(socket := clients[i].value.socket)];
          }
        }
      }
    }

    method Answer(m: Message, rc: int, text: seq<uint8>) returns (out: seq<Message>)
      requires Shape()
      ensures out == R.Answer(clients[..], m, rc, text)
    {
      if rc == 0 || m.tries > R.MAX_RETRANSMISSION {
        out := [R.PositiveAck(m)];
        if m.flag == 0 {
          var copies := Broadcast(R.Announcement(m, text));
          out := out + copies;
        }
      } else {
        out := [R.NegativeAck(m)];
      }
    }

    // The buffers of a received message share nothing with the state.
    ghost predicate Apart(buf: MessageBuffers)
      reads this, hm, buf
    {
      {buf.msg as object, buf.control as object, buf.error as object} !!
        {this as object, clients as object, hm as object, hm.items as object}
    }

    // buf holds the bytes of m; correction rewrites them in place.
    method OnChat(m: Message, buf: MessageBuffers, table: array<uint16>, ghost g: Corrector)
      returns (out: seq<Message>)
      requires Valid() && R.NameOk(m.pseudo) && Apart(buf)
      requires buf.Valid() && buf.Data() == m.data && buf.Check() == m.control
      requires CorrectsWith(g, table[..], ControlFn())
      modifies hm, hm.items, buf.msg, buf.error
      ensures Valid() && (Abs(), out) == R.OnChat(old(Abs()), m, g)
      ensures buf.Data() == R.Corrected(g, m)
    {
      R.NoBadValue(Abs(), m.pseudo);
      var at := Seek(m.pseudo);
      var rc := buf.CorrectError(table, g);
      out := Answer(m, rc, buf.msg[..buf.msgLength]);
    }

    method OnMsgReceived(m: Message, buf: MessageBuffers, table: array<uint16>, now: int, ghost g: Corrector)
      returns (out: seq<Message>)
      requires Valid() && |m.pseudo| < MAX_NAME_LENGTH && Apart(buf)
      requires buf.Valid() && buf.Data() == m.data && buf.Check() == m.control
      requires CorrectsWith(g, table[..], ControlFn())
      modifies this, clients, hm, hm.items, buf.msg, buf.error
      ensures Valid() && (Abs(), out) == R.OnMsg(old(Abs()), m, now, g)
    {
      if |m.pseudo| < MIN_NAME_LENGTH {
        return [];
      }
      if m.kind == MSG_CONNECTION_CLIENT {
        out := OnConnection(m, now);
      } else if m.kind == MSG_STD_CLIENT_SERVER {
        out := OnChat(m, buf, table, g);
      } else {
        out := [];
      }
    }
  }
}
