/** The output stream over whole runs of the older server, from the empty list on. */
module OldStream {
  import opened Words
  import opened SeqSpace
  import opened TcbValues
  import opened OldMachine
  import opened OldSession

  /** The table after more packets. */
  function After(t: Table, ps: seq<Packet>): Table
    decreases |ps|
  {
    if ps == [] then t else After(Step(t, ps[0]).table, ps[1..])
  }

  /** `id` is there before, between and after the packets. */
  ghost predicate Lasts(t: Table, id: ConnId, ps: seq<Packet>)
    decreases |ps|
  {
    id in t && (ps != [] ==> Lasts(Step(t, ps[0]).table, id, ps[1..]))
  }

  /** `id` has been there since `i` packets. */
  ghost predicate KeptSince(ps: seq<Packet>, i: nat, id: ConnId) {
    forall k {:trigger ps[..k]} :: i <= k <= |ps| ==> id in Run(ps[..k])
  }

  /** A block whose handshake has just been completed. */
  predicate JustEstablished(b: Tcb) {
    b.state.Established? && b.send.next == Wrap32(b.send.iss + 1)
  }

  /** A packet that leaves a block open has left its ISS alone, or has just established it. */
  lemma IntoOpen(t: Table, p: Packet, id: ConnId)
    requires GoodTable(t) && id in Step(t, p).table && Open(Step(t, p).table[id])
    ensures var b := Step(t, p).table[id];
            JustEstablished(b) || (id in t && Open(t[id]) && t[id].send.iss == b.send.iss)
  {
  }

  /** In every run, an ESTABLISHED or CLOSE_WAIT entry was just established at some point, with the
      ISS that it has now, and has not been deleted since. */
  lemma {:induction false} WasEstablished(ps: seq<Packet>, id: ConnId) returns (i: nat)
    requires id in Run(ps) && Open(Run(ps)[id])
    ensures i <= |ps| && id in Run(ps[..i]) && KeptSince(ps, i, id)
    ensures JustEstablished(Run(ps[..i])[id]) && Run(ps[..i])[id].send.iss == Run(ps)[id].send.iss
  {
    var n := |ps| - 1;
    var before := ps[..n];
    assert ps[..|ps|] == ps;
    RunIsGood(before);
    IntoOpen(Run(before), ps[n], id);
    if JustEstablished(Run(ps)[id]) {
      i := |ps|;
    } else {
      i := WasEstablished(before, id);
      assert before[..i] == ps[..i];
      StillKept(ps, i, id);
    }
  }

  lemma StillKept(ps: seq<Packet>, i: nat, id: ConnId)
    requires ps != [] && KeptSince(ps[..|ps| - 1], i, id) && id in Run(ps)
    ensures KeptSince(ps, i, id)
  {
    forall k {:trigger ps[..k]} | i <= k <= |ps|
      ensures id in Run(ps[..k])
    {
      if k < |ps| {
        assert ps[..|ps| - 1][..k] == ps[..k];
      } else {
        assert ps[..k] == ps;
      }
    }
  }

  /** A run is its beginning and then the rest. */
  lemma {:induction false} RunSplits(ps: seq<Packet>, i: nat, id: ConnId)
    requires i <= |ps| && KeptSince(ps, i, id)
    ensures Run(ps) == After(Run(ps[..i]), ps[i..]) && Lasts(Run(ps[..i]), id, ps[i..])
    decreases |ps| - i
  {
    assert id in Run(ps[..i]);
    if i == |ps| {
      assert ps[..i] == ps && ps[i..] == [];
    } else {
      RunSplits(ps, i + 1, id);
      assert ps[..i + 1][..i] == ps[..i] && ps[i..][1..] == ps[i + 1..];
      assert Run(ps[..i + 1]) == Step(Run(ps[..i]), ps[i]).table;
    }
  }

  /** While a connection lasts, the next number to send moves on by the bodies joined so far. */
  lemma {:induction false} NextGrows(t: Table, id: ConnId, ps: seq<Packet>)
    requires Lasts(t, id, ps) && t[id].id == id && Open(t[id])
    ensures id in After(t, ps) && After(t, ps)[id].send.next == Wrap32(t[id].send.next + |Bodies(t, id, ps)|)
    decreases |ps|
  {
    if ps != [] {
      StreamStep(t, id, ps[0]);
      var t' := Step(t, ps[0]).table;
      NextGrows(t', id, ps[1..]);
      var body := if IsRequest(t[id], ps[0]) then ps[0].body else [];
      assert Bodies(t, id, ps) == body + Bodies(t', id, ps[1..]);
      WrapAdd(t[id].send.next + |body|, |Bodies(t', id, ps[1..])|);
    }
  }

  /** Exactly one reply covers `num`, and it holds `b` there. */
  ghost predicate CoveredOnce(rs: seq<Answer>, num: u32, b: byte) {
    exists j :: 0 <= j < |rs| && CoversAlone(rs, j, num) && rs[j].payload[Ahead(num, rs[j].seqNum)] == b
  }

  ghost predicate CoversAlone(rs: seq<Answer>, j: nat, num: u32)
    requires j < |rs|
  {
    Covers(rs[j], num) && forall i :: 0 <= i < |rs| && i != j ==> !Covers(rs[i], num)
  }

  /** Reassembling `rs` by sequence number from `first` on gives `stream`. */
  ghost predicate Reassembles(rs: seq<Answer>, first: int, stream: seq<byte>) {
    forall k :: 0 <= k < |stream| ==> CoveredOnce(rs, Wrap32(first + k), stream[k])
  }

  lemma StreamReassembles(t: Table, id: ConnId, ps: seq<Packet>)
    requires id in t && t[id].id == id && JustEstablished(t[id]) && |Bodies(t, id, ps)| < 0x1_0000_0000
    ensures Reassembles(Replies(t, id, ps), t[id].send.iss + 1, Bodies(t, id, ps))
  {
    var rs, stream := Replies(t, id, ps), Bodies(t, id, ps);
    forall k | 0 <= k < |stream|
      ensures CoveredOnce(rs, Wrap32(t[id].send.iss + 1 + k), stream[k])
    {
      var j := StreamIsContiguous(t, id, ps, k);
      assert CoversAlone(rs, j, Wrap32(t[id].send.iss + 1 + k));
    }
  }

  /** `id` was established after `i` packets, with the ISS that it has at the end, and kept since. */
  ghost predicate EstablishedAt(ps: seq<Packet>, i: nat, id: ConnId) {
    && i <= |ps| && KeptSince(ps, i, id) && id in Run(ps) && id in Run(ps[..i])
    && JustEstablished(Run(ps[..i])[id]) && Run(ps[..i])[id].send.iss == Run(ps)[id].send.iss
  }

  /** Between `t` and `t'`, which the packets lead to, the replies on `id` tile the joined response
      bodies from `first` on, send.next is where they end, and shorter than 2^32 they are what
      reassembling the replies by sequence number gives. */
  ghost predicate Streams(t: Table, id: ConnId, ps: seq<Packet>, t': Table, first: int) {
    var rs, stream := Replies(t, id, ps), Bodies(t, id, ps);
    && Tiles(rs, Wrap32(first), stream)
    && id in t' && t'[id].send.next == Wrap32(first + |stream|)
    && (|stream| < 0x1_0000_0000 ==> Reassembles(rs, first, stream))
  }

  /** In every run this holds for each open connection from where it was established, with iss + 1
      as the first number. */
  lemma RunStream(ps: seq<Packet>, id: ConnId) returns (i: nat)
    requires id in Run(ps) && Open(Run(ps)[id])
    ensures EstablishedAt(ps, i, id)
    ensures Streams(Run(ps[..i]), id, ps[i..], Run(ps), Run(ps)[id].send.iss + 1)
  {
    i := WasEstablished(ps, id);
    RunIsGood(ps[..i]);
    RunSplits(ps, i, id);
    StreamSince(Run(ps[..i]), id, ps[i..]);
  }

  lemma StreamSince(t: Table, id: ConnId, ps: seq<Packet>)
    requires Lasts(t, id, ps) && t[id].id == id && JustEstablished(t[id])
    ensures Streams(t, id, ps, After(t, ps), t[id].send.iss + 1)
  {
    RepliesTile(t, id, ps);
    NextGrows(t, id, ps);
    WrapAdd(t[id].send.iss + 1, |Bodies(t, id, ps)|);
    if |Bodies(t, id, ps)| < 0x1_0000_0000 {
      StreamReassembles(t, id, ps);
    }
  }
}
