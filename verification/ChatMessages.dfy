/**
 The message that clients, proxy and server exchange, and the numbers that give its kind.
 */
module ChatMessages {
  import opened Bits

  datatype Option<T> = None | Some(value: T)

  const MSG_NULL: int := -1
  const MSG_STD_CLIENT_SERVER: int := 0
  const MSG_SERVER_CLIENT: int := 1
  const MSG_CONNECTION_CLIENT: int := 2
  const MSG_ERROR: int := 4
  const MSG_ACK_POS: int := 5
  const MSG_ACK_NEG: int := 6
  const MSG_WELL_CONNECTED: int := 8
  const MSG_CLIENT_CONNECTED: int := 9
  const MSG_CLIENT_DISCONNECTED: int := 10

  const MIN_NAME_LENGTH: nat := 4
  const MAX_NAME_LENGTH: nat := 64

  // data and control hold the bytes in use of the two fixed buffers. serial is history: the
  // number of the chat line a message is about. No branch of the program reads it.
  datatype RawMessage = Message(
    kind: int,
    id: int,
    socket: int,
    pseudo: string,
    flag: int,
    data: seq<uint8>,
    control: seq<uint8>,
    tries: int,
    serial: nat)

  type Message = m: RawMessage | |m.control| == |m.data|
    witness RawMessage.Message(MSG_NULL, -1, -1, "", 0, [], [], 0, 0)

  // What initialising a message leaves.
  function Blank(): Message {
    RawMessage.Message(MSG_NULL, -1, -1, "", 0, [], [], 0, 0)
  }

  // A chat line, as a client keeps and sends it.
  predicate IsChat(m: Message) {
    m.kind == MSG_STD_CLIENT_SERVER
  }

  predicate IsAck(m: Message) {
    m.kind == MSG_ACK_POS || m.kind == MSG_ACK_NEG
  }
}
