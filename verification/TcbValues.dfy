/** Connection identifiers, transmission control blocks and parsed segments, as values. */
module TcbValues {
  import opened Words

  const LISTEN_PORT: u16 := 8080
  const WINDOW: u32 := 8192

  datatype ConnId = ConnId(srcPort: u16, dstPort: u16, srcIp: u32, dstIp: u32)

  datatype SendState = SendState(unac: u32, next: u32, window: u32, iss: u32)

  datatype RecvState = RecvState(next: u32, window: u32, irs: u32)

  datatype ConState =
    | Closed
    | SynReceived
    | Established
    | CloseWait
    | Closing
    | LastAck
    | TimeWait

  datatype Tcb = Tcb(id: ConnId, send: SendState, recv: RecvState, state: ConState)

  datatype Flags = Flags(fin: bool, syn: bool, rst: bool, psh: bool, ack: bool)

  /** The header fields of an incoming segment that the connection machine looks at. */
  datatype Segment = Segment(id: ConnId, seqNum: u32, ackNum: u32, flags: Flags, window: u16)

  /** The opposite direction of a connection. */
  function Reverse(id: ConnId): ConnId {
    ConnId(id.dstPort, id.srcPort, id.dstIp, id.srcIp)
  }

  /** A block as `tcb_init` leaves it. */
  function NewTcb(id: ConnId): Tcb {
    Tcb(id, SendState(0, 0, 0, 0), RecvState(0, WINDOW, 0), Closed)
  }
}
