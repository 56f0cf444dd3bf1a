/**
 The proxy between the clients and the server: what it drops, what it disturbs, what it passes on.
 */
module Proxy {
  import opened Gf2
  import opened CodeErrors
  import opened ChatMessages
  import opened MessageCoding

  const MIN_NOISE_LENGTH: nat := 10

  // Kinds that may come without a body.
  predicate MayBeEmpty(kind: int) {
    || kind == MSG_ACK_NEG || kind == MSG_ACK_POS || kind == MSG_CLIENT_CONNECTED
    || kind == MSG_CLIENT_DISCONNECTED || kind == MSG_CONNECTION_CLIENT || kind == MSG_WELL_CONNECTED
  }

  predicate Dropped(m: Message) {
    m.kind == MSG_NULL || (|m.data| == 0 && !MayBeEmpty(m.kind))
  }

  predicate Disturbed(m: Message) {
    m.kind == MSG_STD_CLIENT_SERVER && |m.data| >= MIN_NOISE_LENGTH
  }

  function Noisy(m: Message, fl: seq<Flips>): Message
    requires |fl| == |m.data|
  {
    m.(data := NoisyData(m.data, fl), control := NoisyControl(m.control, fl))
  }

  // fl are the flips of the noise, where there is any.
  function OnClientReceived(m: Message, fl: seq<Flips>): Option<Message>
    requires Disturbed(m) ==> |fl| == |m.data|
  {
    if Dropped(m) then None
    else if Disturbed(m) then Some(Noisy(m, fl))
    else Some(m)
  }

  // fds is how many sockets the proxy polls on the side of the clients.
  function OnServerReceived(m: Message, fds: nat): Option<Message> {
    if m.kind == MSG_NULL || m.socket < 0 || m.socket >= fds || Dropped(m) then None else Some(m)
  }

  // buf holds the bytes of m; the noise is written into it.
  method Relay(m: Message, buf: MessageBuffers, coins: seq<Word>) returns (sent: bool)
    requires buf.Valid() && buf.Data() == m.data && buf.Check() == m.control
    requires |coins| == |m.data| && forall i :: 0 <= i < |coins| ==> |coins[i]| == N
    modifies buf.msg, buf.control
    ensures sent <==> OnClientReceived(m, FlipsOf(coins)).Some?
    ensures sent ==> OnClientReceived(m, FlipsOf(coins)).value == m.(data := buf.Data(), control := buf.Check())
  {
    if m.kind == MSG_NULL {
      return false;
    }
    if m.kind == MSG_STD_CLIENT_SERVER && buf.msgLength >= MIN_NOISE_LENGTH {
      buf.InsertError(coins);
    }
    return buf.msgLength != 0 || MayBeEmpty(m.kind);
  }

  /** A refused login never reaches the client: the error has no body, so the proxy drops it. */
  lemma ErrorsAreDropped(m: Message, fds: nat)
    requires m.kind == MSG_ERROR && m.data == []
    ensures OnServerReceived(m, fds) == None
  {
  }
}
