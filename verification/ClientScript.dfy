/** The scripted client: the same class drives the refactored and the older server. */
module ClientScript {
  import opened Words
  import opened TcbValues
  import S = Segments

  const CLIENT_ISN := 1000

  /** What sr1 returns: nothing, or the header fields and payload of an answer. */
  datatype Response =
    | Timeout
    | Response(flags: byte, seqNum: u32, ackNum: u32, payload: seq<byte>)

  /** The client's fields; Python integers do not wrap. */
  datatype Client = Client(id: ConnId, mySeq: int, theirSeq: int, established: bool)

  const SYN_ONLY := Flags(false, true, false, false, false)
  const ACK_ONLY := Flags(false, false, false, false, true)
  const PSH_ACK := Flags(false, false, false, true, true)

  function NewClient(id: ConnId): Client {
    Client(id, CLIENT_ISN, 0, false)
  }

  /** A segment with the client's current numbers; `window` is what the packet library fills in. */
  function ClientSegment(c: Client, flags: Flags, window: u16): Segment {
    Segment(c.id, Wrap32(c.mySeq), if flags.ack then Wrap32(c.theirSeq) else 0, flags, window)
  }

  predicate IsSynAck(r: Response) {
    r.Response? && r.flags == S.SYN + S.ACK
  }

  /** The client after the answer to its SYN. */
  function AfterHandshake(c: Client, r: Response): Client {
    if IsSynAck(r) then c.(theirSeq := r.seqNum as int + 1, mySeq := r.ackNum, established := true) else c
  }

  /** The client after the answer to its data. */
  function AfterData(c: Client, data: seq<byte>, r: Response): Client {
    if r.Timeout? then c else c.(mySeq := c.mySeq + |data|, theirSeq := c.theirSeq + |r.payload|)
  }

  class TcpClient {
    const id: ConnId
    var mySeq: int
    var theirSeq: int
    var established: bool

    ghost function Value(): Client
      reads this
    {
      Client(id, mySeq, theirSeq, established)
    }

    constructor (id: ConnId)
      ensures Value() == NewClient(id) && mySeq == 1000 && theirSeq == 0 && !established
    {
      this.id := id;
      mySeq, theirSeq, established := CLIENT_ISN, 0, false;
    }

    /** `handshake`, sr1 having returned `r` for the SYN: the segments sent before and after. */
    method Handshake(r: Response, window: u16) returns (ok: bool, syn: Segment, ack: seq<Segment>)
      modifies this
      ensures syn == old(ClientSegment(Value(), SYN_ONLY, window))
      ensures ok == IsSynAck(r) && Value() == AfterHandshake(old(Value()), r)
      ensures ack == if ok then [ClientSegment(Value(), ACK_ONLY, window)] else []
      ensures syn == Segment(id, old(mySeq) % 0x1_0000_0000, 0, Flags(false, true, false, false, false), window)
      ensures ok <==> r.Response? && r.flags == 0x12
      ensures ok ==> mySeq == r.ackNum && theirSeq == r.seqNum + 1 && established
      ensures ok ==> ack == [Segment(id, r.ackNum, (r.seqNum + 1) % 0x1_0000_0000, Flags(false, false, false, false, true), window)]
      ensures !ok ==> ack == [] && mySeq == old(mySeq) && theirSeq == old(theirSeq) && established == old(established)
    {
      syn := Segment(id, Wrap32(mySeq), 0, SYN_ONLY, window);
      if r.Timeout? {
        return false, syn, [];
      }
      if r.flags != 0x12 {
        return false, syn, [];
      }
      theirSeq := r.seqNum as int + 1;
      mySeq := r.ackNum;
      ack := [Segment(id, Wrap32(mySeq), Wrap32(theirSeq), ACK_ONLY, window)];
      established := true;
      return true, syn, ack;
    }

    /** `send_data`, sr1 having returned `r` for the data segment. */
    method SendData(data: seq<byte>, r: Response, window: u16) returns (ok: bool, sent: seq<Segment>)
      modifies this
      ensures ok == (old(established) && r.Response?)
      ensures sent == if old(established) then [old(ClientSegment(Value(), PSH_ACK, window))] else []
      ensures Value() == if old(established) then AfterData(old(Value()), data, r) else old(Value())
      ensures sent == if !old(established) then []
                      else [Segment(id, old(mySeq) % 0x1_0000_0000, old(theirSeq) % 0x1_0000_0000,
                                    Flags(false, false, false, true, true), window)]
      ensures ok ==> mySeq == old(mySeq) + |data| && theirSeq == old(theirSeq) + |r.payload|
      ensures !ok ==> mySeq == old(mySeq) && theirSeq == old(theirSeq)
      ensures established == old(established)
    {
      if !established {
        return false, [];
      }
      sent := [Segment(id, Wrap32(mySeq), Wrap32(theirSeq), PSH_ACK, window)];
      if r.Timeout? {
        return false, sent;
      }
      mySeq := mySeq + |data|;
      if r.payload != [] {
        theirSeq := theirSeq + |r.payload|;
      }
      return true, sent;
    }
  }
}
