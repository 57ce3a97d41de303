/** `tcp_dispatch` of the refactored stack on the real table: find or create the block,
    classify the segment, update the block in place, and reply or delete. */
module TcpStack {
  import opened Words
  import opened SeqSpace
  import V = TcbValues
  import M = ConnMachine
  import opened TcbVector
  import opened HashTable

  /** Which allocations of one dispatch succeed: the block, the set-up of the table (bucket
      `setupFailsAt` fails if it exists), and growing a full bucket. */
  datatype Memory = Memory(block: bool, setupFailsAt: nat, grow: bool)

  /** How far the memory at hand decides whether a segment has a block to act on: always
      for a known connection, and for an unknown one if all allocations succeed, and not if that of
      the block fails. In between it depends on whether the table is set up and the bucket full. */
  predicate Granted(known: bool, mem: Memory, memory: bool) {
    && (known || mem == Memory(true, HT_SIZE, true) ==> memory)
    && (!known && !mem.block ==> !memory)
  }

  /** Every block allocated and not freed is the one that the table has for its identifier. */
  ghost predicate Conserved(table: Table)
    reads table, table.heap
  {
    forall t :: t in table.heap.live ==> t.id in table.entries && table.entries[t.id] == t
  }

  /** So the blocks allocated and not freed are exactly those in the table. */
  lemma LiveAreEntries(table: Table)
    requires table.Valid() && Conserved(table)
    ensures table.heap.live == table.entries.Values
  {
  }

  /** The block that a segment on `id` acts on: the stored one, or a new one. */
  ghost function Before(t: M.Table, id: V.ConnId): V.Tcb {
    if id in t then t[id] else V.NewTcb(id)
  }

  /** `tcb` is in the table and has not been freed. */
  ghost predicate Current(table: Table, tcb: Tcb)
    reads table, table.heap
  {
    tcb in table.heap.live && tcb.id in table.entries && table.entries[tcb.id] == tcb
  }

  ghost predicate Shown(entries: Entries, t: M.Table, id: V.ConnId)
    requires id in entries && id in t
    reads entries.Values
  {
    entries[id].Value() == t[id]
  }

  /** The blocks of `entries` hold what `t` says. */
  ghost predicate Shows(entries: Entries, t: M.Table)
    reads entries.Values
  {
    entries.Keys == t.Keys && forall id {:trigger Shown(entries, t, id)} :: id in t ==> Shown(entries, t, id)
  }

  lemma ShowsModel(table: Table, t: M.Table)
    ensures Shows(table.entries, t) <==> table.Model() == t
  {
    if Shows(table.entries, t) {
      assert forall id :: id in t ==> Shown(table.entries, t, id);
    }
  }

  /** The first half of `tcp_parse_edge`: the block for `id`, made and inserted if there is
      none. Without memory for a new one the half-made block is freed and `con` is null. */
  method FindOrCreate(table: Table, id: V.ConnId, mem: Memory) returns (con: Tcb?)
    requires table.Valid() && Conserved(table)
    modifies table, table.heap, table.cells
    ensures table.Valid() && Conserved(table) && fresh(table.cells - old(table.cells))
    ensures con == null ==> id !in old(table.entries) && table.heap.live == old(table.heap.live)
    ensures con != null ==> con.id == id && con.Value() == Before(old(table.Model()), id) && Current(table, con)
    ensures con != null ==> fresh(con) || con in old(table.heap.live)
    ensures con != null ==> table.heap.live == old(table.heap.live) + {con}
    ensures Shows(table.entries, if con == null then old(table.Model()) else old(table.Model())[id := con.Value()])
    ensures Granted(id in old(table.entries), mem, con != null)
  {
    ghost var before := table.Model();
    con := table.Find(id);
    if con == null {
      con := Create(table, id, mem);
    }
    ghost var after := if con == null then before else before[id := con.Value()];
    forall i | i in after
      ensures Shown(table.entries, after, i)
    {
    }
  }

  /** A new block for `id`, inserted, or none at all. */
  method Create(table: Table, id: V.ConnId, mem: Memory) returns (con: Tcb?)
    requires table.Valid() && Conserved(table) && id !in table.entries
    modifies table, table.heap, table.cells
    ensures table.Valid() && Conserved(table) && fresh(table.cells - old(table.cells))
    ensures con == null ==> table.entries == old(table.entries) && table.heap.live == old(table.heap.live)
    ensures con != null ==> con.Value() == V.NewTcb(id) && table.entries == old(table.entries)[id := con]
    ensures con != null ==> fresh(con) && table.heap.live == old(table.heap.live) + {con}
    ensures (mem == Memory(true, HT_SIZE, true) ==> con != null) && (!mem.block ==> con == null)
  {
    con := table.heap.NewTcb(id, mem.block);
    if con != null {
      var ok := Store(table, con, mem);
      con := if ok then con else null;
    }
  }

  /** Inserts a block that is not in the table yet, or frees it. */
  method Store(table: Table, con: Tcb, mem: Memory) returns (ok: bool)
    requires table.Valid() && con in table.heap.live && con !in table.cells && con.id !in table.entries
    requires forall t :: t in table.heap.live && t != con ==> t.id in table.entries && table.entries[t.id] == t
    modifies table, table.heap, table.cells
    ensures table.Valid() && Conserved(table) && fresh(table.cells - old(table.cells))
    ensures ok ==> table.entries == old(table.entries)[con.id := con] && table.heap.live == old(table.heap.live)
    ensures !ok ==> table.entries == old(table.entries) && table.heap.live == old(table.heap.live) - {con}
    ensures mem.setupFailsAt == HT_SIZE && mem.grow ==> ok
  {
    ok := table.Insert(con, mem.setupFailsAt, mem.grow);
    if !ok {
      table.heap.Free(con);
    }
  }

  /** The second half of `tcp_parse_edge`, on a block that is there and has not been freed. */
  method SelectEdge(con: Tcb, f: V.Flags, ghost live: set<Tcb>) returns (edge: M.Edge)
    requires con in live
    ensures edge == M.Classify(con.Value(), f)
  {
    edge := M.EvtDrop;
    if con.id.dstPort != V.LISTEN_PORT {
      return M.EvtSendRst;
    }
    if f.rst {
      return M.EvtRst;
    }
    if con.state == V.Closed {
      return if f.syn && !f.ack then M.EvtSyn else M.EvtSendRst;
    }
    match con.state {
      case SynReceived =>
        edge := if f.ack && !f.syn then M.EvtAck else M.EvtSendRst;
      case Established =>
        edge := if f.rst then M.EvtRst else if f.syn then M.EvtSendRst else M.EvtData;
      case _ =>
    }
  }

  /** `hash_delete` of a block in the table. */
  method Remove(table: Table, tcb: Tcb)
    requires table.Valid() && Conserved(table) && Current(table, tcb)
    modifies table, table.heap, table.cells
    ensures table.Valid() && Conserved(table) && table.cells == old(table.cells) && table.heap.live <= old(table.heap.live)
    ensures table.entries == old(table.entries) - {tcb.id}
  {
    table.Delete(tcb);
  }

  /** `tcb_state_update`: the new numbers and state, in place, and deletion on a reset in the
      window. Edges other than these three need no block and change nothing. */
  method StateUpdate(table: Table, tcb: Tcb?, seg: V.Segment, edge: M.Edge, iss: u32) returns (valid: bool)
    requires table.Valid() && Conserved(table)
    requires edge.EvtSyn? || edge.EvtAck? || edge.EvtRst? ==>
               tcb != null && Current(table, tcb)
    modifies table, table.heap, table.cells, if tcb != null then {tcb} else {}
    ensures table.Valid() && Conserved(table) && table.cells == old(table.cells) && table.heap.live <= old(table.heap.live)
    ensures edge.EvtSyn? ==> valid && tcb.Value() == M.OnSyn(old(tcb.Value()), seg, iss)
    ensures edge.EvtAck? ==> tcb.Value() == M.OnAck(old(tcb.Value()), seg)
    ensures edge.EvtRst? ==> tcb.Value() == old(tcb.Value())
                             && valid == InWindow(seg.seqNum, tcb.recv.next, tcb.recv.window)
    ensures table.entries == if edge.EvtRst? && valid then old(table.entries) - {tcb.id} else old(table.entries)
    ensures edge.EvtAck? ==> valid == (seg.ackNum == old(tcb.send.next))
    ensures tcb != null && !edge.EvtSyn? && !edge.EvtAck? ==> tcb.Value() == old(tcb.Value())
    ensures !edge.EvtSyn? && !edge.EvtAck? && !edge.EvtRst? ==> valid
  {
    match edge {
      case EvtSyn =>
        tcb.recv := tcb.recv.(irs := seg.seqNum, next := Wrap32(seg.seqNum + 1));
        tcb.send := tcb.send.(window := seg.window);
        if tcb.state == V.Closed {
          tcb.send := tcb.send.(iss := iss, next := Wrap32(iss + 1), unac := iss);
        }
        tcb.state := V.SynReceived;
        return true;
      case EvtAck =>
        if seg.ackNum == tcb.send.next {
          tcb.state := V.Established;
          tcb.send := tcb.send.(unac := seg.ackNum);
          return true;
        }
        return false;
      case EvtRst =>
        if SeqGeq(seg.seqNum, tcb.recv.next) && SeqLt(seg.seqNum, Wrap32(tcb.recv.next + tcb.recv.window)) {
          Remove(table, tcb);
          return true;
        }
        return false;
      case _ =>
        return true;
    }
  }

  /** The update and the reply for a block that is in the table. Resetting (`tcp_rst`) ends
      by deleting the block. */
  method Apply(table: Table, tcb: Tcb, seg: V.Segment, iss: u32) returns (reply: M.Reply, ghost effect: M.Effect)
    requires table.Valid() && Conserved(table) && Current(table, tcb)
    modifies table, table.heap, table.cells, tcb
    ensures table.Valid() && Conserved(table) && table.cells == old(table.cells) && table.heap.live <= old(table.heap.live)
    ensures effect == M.React(old(tcb.Value()), seg, iss) && reply == effect.reply
    ensures effect.Keep? ==> table.entries == old(table.entries) && tcb.Value() == effect.tcb
    ensures effect.Remove? ==> table.entries == old(table.entries) - {tcb.id}
  {
    effect := M.React(tcb.Value(), seg, iss);
    var edge := SelectEdge(tcb, seg.flags, table.heap.live);
    var valid := StateUpdate(table, if edge.EvtDrop? then null else tcb, seg, edge, iss);
    if !valid {
      edge := M.EvtDrop;
    }
    reply := M.NoReply;
    if edge.EvtSyn? {
      assert tcb in table.heap.live;
      reply := M.SynAck(tcb.send.iss, tcb.recv.next, tcb.recv.window);
    } else if edge.EvtSendRst? {
      Remove(table, tcb);
      reply := M.Reset;
    }
  }

  /** The same with what all blocks hold afterwards. */
  method ApplyShown(table: Table, tcb: Tcb, seg: V.Segment, iss: u32) returns (reply: M.Reply, ghost effect: M.Effect)
    requires table.Valid() && Conserved(table) && Current(table, tcb)
    modifies table, table.heap, table.cells, tcb
    ensures table.Valid() && Conserved(table) && table.cells == old(table.cells) && table.heap.live <= old(table.heap.live)
    ensures effect == M.React(old(tcb.Value()), seg, iss) && reply == effect.reply
    ensures Shows(table.entries, if effect.Keep? then old(table.Model())[tcb.id := effect.tcb] else old(table.Model()) - {tcb.id})
  {
    ghost var before := table.Model();
    reply, effect := Apply(table, tcb, seg, iss);
    ghost var after := if effect.Keep? then before[tcb.id := effect.tcb] else before - {tcb.id};
    forall id | id in after
      ensures Shown(table.entries, after, id)
    {
    }
  }

  /** The same on the map that the table stands for. */
  method ApplyToModel(table: Table, tcb: Tcb, seg: V.Segment, iss: u32) returns (reply: M.Reply)
    requires table.Valid() && Conserved(table) && Current(table, tcb) && tcb.id == seg.id
    modifies table, table.heap, table.cells, tcb
    ensures table.Valid() && Conserved(table) && table.cells == old(table.cells) && table.heap.live <= old(table.heap.live)
    ensures M.Outcome(table.Model(), reply) == M.Step(old(table.Model()), M.Input(seg, iss, true))
  {
    ghost var before, effect := table.Model(), M.React(tcb.Value(), seg, iss);
    reply, effect := ApplyShown(table, tcb, seg, iss);
    ShowsModel(table, if effect.Keep? then before[tcb.id := effect.tcb] else before - {tcb.id});
  }

  /** The block stored for this segment, if there was none, is part of the same step of the
      machine; `before` is what the table stood for without it. With no block nothing happens. */
  method ApplyStored(table: Table, tcb: Tcb?, seg: V.Segment, iss: u32, ghost before: M.Table) returns (reply: M.Reply)
    requires table.Valid() && Conserved(table)
    requires if tcb == null then seg.id !in before else Current(table, tcb) && tcb.id == seg.id
    requires Shows(table.entries, if tcb == null then before else before[seg.id := Before(before, seg.id)])
    modifies table, table.heap, table.cells, if tcb != null then {tcb} else {}
    ensures table.Valid() && Conserved(table) && table.cells == old(table.cells) && table.heap.live <= old(table.heap.live)
    ensures M.Outcome(table.Model(), reply) == M.Step(before, M.Input(seg, iss, tcb != null))
  {
    if tcb == null {
      ShowsModel(table, before);
      return M.NoReply;
    }
    ShowsModel(table, before[seg.id := Before(before, seg.id)]);
    reply := ApplyToModel(table, tcb, seg, iss);
    StoringFirst(before, M.Input(seg, iss, true));
  }

  /** `tcp_dispatch` for a segment whose checksum is right. On any table it computes the step
      of the connection machine, and afterwards again the blocks allocated and not freed are
      exactly those in the table. */
  method Dispatch(table: Table, seg: V.Segment, iss: u32, mem: Memory) returns (reply: M.Reply, ghost memory: bool)
    requires table.Valid() && Conserved(table)
    modifies table, table.heap, table.cells, table.heap.live
    ensures table.Valid() && Conserved(table) && fresh(table.cells - old(table.cells))
    ensures fresh(table.heap.live - old(table.heap.live))
    ensures M.Outcome(table.Model(), reply) == M.Step(old(table.Model()), M.Input(seg, iss, memory))
    ensures Granted(seg.id in old(table.entries), mem, memory)
  {
    ghost var before := table.Model();
    var con := FindOrCreate(table, seg.id, mem);
    memory := con != null;
    reply := ApplyStored(table, con, seg, iss, before);
  }

  /** Storing the block before the segment acts on it makes no difference. */
  lemma StoringFirst(t: M.Table, i: M.Input)
    requires i.memory
    ensures M.Step(t[i.seg.id := Before(t, i.seg.id)], i) == M.Step(t, i)
  {
    assert t[i.seg.id := Before(t, i.seg.id)] - {i.seg.id} == t - {i.seg.id};
  }
}
