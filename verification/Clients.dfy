/**
 The client as the program runs it: a state its handlers change in place.
 */
module Clients {
  import opened Bits
  import opened ChatMessages
  import opened ClientTable

  class ClientState {
    var slots: seq<Message>
    var nb: nat
    var pseudo: string
    var connected: bool
    var waiting: bool
    var flag: int

    ghost function Abs(): Client
      reads this
    {
      Client(slots, nb, pseudo, connected, waiting, flag)
    }

    constructor ()
      ensures Abs() == NewClient()
    {
      slots := seq(10, _ => Blank());
      nb, pseudo, flag := 0, "", 0;
      connected, waiting := false, false;
    }

    // junk is what the memory a growth adds holds in the counters of retransmissions.
    method FindNextMsgId(junk: seq<int>) returns (id: nat)
      requires |junk| == |slots|
      modifies this`slots
      ensures Abs() == Roomy(old(Abs()), junk) && id == NextId(old(Abs()), junk)
    {
      var firstFree := 0;
      if nb == |slots| {
        firstFree := |slots|;
        var grown := slots;
        for i := 0 to |junk|
          invariant grown == slots + NewSlots(junk[..i])
        {
          grown := grown + [NewSlot(junk[i])];
          assert NewSlots(junk[..i + 1]) == NewSlots(junk[..i]) + [NewSlot(junk[i])];
        }
        assert junk[..|junk|] == junk;
        slots := grown;
      }
      id := firstFree;
      while id < |slots| && Occupied(slots[id])
        invariant firstFree <= id <= |slots|
        invariant FirstFree(slots, id) == FirstFree(slots, firstFree)
      {
        id := id + 1;
      }
    }

    // ok is false where the program exits.
    method SendMessage(data: seq<uint8>, control: seq<uint8>, junk: seq<int>, serial: nat)
      returns (ok: bool, out: seq<Message>)
      requires |control| == |data| && |junk| == |slots|
      modifies this
      ensures ok <==> Send(old(Abs()), data, control, junk, serial).Done?
      ensures ok ==> Done(Abs(), out) == Send(old(Abs()), data, control, junk, serial)
    {
      var id := FindNextMsgId(junk);
      if id == |slots| {
        return false, [];
      }
      var m := ChatLine(slots[id], id, Client(slots, nb, pseudo, connected, waiting, flag), data, control, serial);
      slots := slots[id := m];
      nb := nb + 1;
      return true, [m];
    }

    method TypeLine(l: Line) returns (ok: bool, out: seq<Message>)
      requires LineFits(Abs(), l)
      modifies this
      ensures ok <==> OnStdin(old(Abs()), l).Done?
      ensures ok ==> Done(Abs(), out) == OnStdin(old(Abs()), l)
    {
      ok, out := true, [];
      if |pseudo| == 0 {
        if !waiting && |l.data| >= MIN_NAME_LENGTH {
          if |slots| == 0 {
            return false, [];
          }
          var m := Request(l.text, l.code);
          pseudo := l.text;
          slots := slots[0 := m];
          nb := nb + 1;
          out := [m];
          waiting := true;
        }
      } else if connected {
        ok, out := SendMessage(l.data, l.control, l.junk, l.serial);
      }
    }

    // ok is false where the program would read outside its table.
    method Receive(m: Message) returns (ok: bool, out: seq<Message>)
      modifies this
      ensures ok <==> OnMsg(old(Abs()), m).Done?
      ensures ok ==> Done(Abs(), out) == OnMsg(old(Abs()), m)
    {
      ok, out := true, [];
      if waiting {
        if m.kind == MSG_ERROR {
          pseudo := "";
          waiting := false;
          if 0 <= m.id < nb {
            if m.id >= |slots| {
              return false, [];
            }
            if Occupied(slots[m.id]) {
              slots := slots[m.id := Blank()];
            }
          }
        } else if m.kind == MSG_WELL_CONNECTED {
          connected := true;
          waiting := false;
        }
      } else if connected && IsAck(m) {
        if m.id < 0 || m.id > nb {
          return true, [];
        }
        if m.id >= |slots| {
          return false, [];
        }
        if !Occupied(slots[m.id]) {
          return true, [];
        }
        if m.kind == MSG_ACK_NEG {
          slots := slots[m.id := slots[m.id].(tries := m.tries)];
          out := [slots[m.id]];
        } else {
          slots := slots[m.id := Blank()];
        }
      }
    }
  }
}
