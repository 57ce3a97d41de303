/** The hash table and the linked list it replaces give the same answers. */
module TableAgreement {
  import V = TcbValues
  import H = HashTable
  import T = TcpStack
  import TcbVector
  import L = ConnList
  import O = OldStack

  /** What the dispatchers do with a table: look a connection up, store a new one unless it is
      there (its block then gets these values), delete one that is there. */
  datatype Op =
    | Find(id: V.ConnId)
    | Insert(block: V.Tcb)
    | Delete(id: V.ConnId)

  function IdOf(op: Op): V.ConnId {
    if op.Insert? then op.block.id else op.id
  }

  datatype Found = Absent | Present(block: V.Tcb)

  /** The block for the identifier before the operation, and the size field afterwards. */
  datatype Answer = Answer(found: Found, size: nat)

  type Contents = map<V.ConnId, V.Tcb>

  /** The operations on a finite map. */
  function Apply(m: Contents, op: Op): Contents {
    match op
    case Find(_) => m
    case Insert(block) => if block.id in m then m else m[block.id := block]
    case Delete(id) => m - {id}
  }

  function Lookup(m: Contents, id: V.ConnId): Found {
    if id in m then Present(m[id]) else Absent
  }

  function AnswerTo(m: Contents, op: Op): Answer {
    Answer(Lookup(m, IdOf(op)), |Apply(m, op)|)
  }

  function After(ops: seq<Op>): Contents {
    if ops == [] then map[] else Apply(After(ops[..|ops| - 1]), ops[|ops| - 1])
  }

  function AnswersTo(ops: seq<Op>): seq<Answer> {
    if ops == [] then []
    else AnswersTo(ops[..|ops| - 1]) + [AnswerTo(After(ops[..|ops| - 1]), ops[|ops| - 1])]
  }

  lemma AnswersAppend(ops: seq<Op>, op: Op)
    ensures After(ops + [op]) == Apply(After(ops), op)
    ensures AnswersTo(ops + [op]) == AnswersTo(ops) + [AnswerTo(After(ops), op)]
  {
    assert (ops + [op])[..|ops|] == ops;
  }

  lemma OneMore<X>(s: seq<X>, k: nat)
    requires k < |s|
    ensures s[..k + 1] == s[..k] + [s[k]]
  {
  }

  lemma SameSize<X>(e: map<V.ConnId, X>, m: Contents)
    requires e.Keys == m.Keys
    ensures |e| == |m|
  {
    assert |e| == |e.Keys| && |m| == |m.Keys|;
  }

  // ------------------------------------------------------------------ the hash table

  /** An insert for which memory ran out is no more than a lookup. */
  predicate Does(op: Op, did: Op, mem: T.Memory) {
    did == op || (op.Insert? && did == Find(op.block.id) && mem != T.Memory(true, H.HT_SIZE, true))
  }

  /** The table stands for `m` after `done`, which is what was done of `ops`. */
  ghost predicate Ran(ops: seq<Op>, mems: seq<T.Memory>, done: seq<Op>, answers: seq<Answer>, m: Contents) {
    && |ops| == |mems| == |done|
    && (forall k {:trigger Does(ops[k], done[k], mems[k])} :: 0 <= k < |ops| ==> Does(ops[k], done[k], mems[k]))
    && m == After(done) && answers == AnswersTo(done)
  }

  lemma RanAppend(ops: seq<Op>, mems: seq<T.Memory>, done: seq<Op>, answers: seq<Answer>, m: Contents,
                  op: Op, mem: T.Memory, did: Op)
    requires Ran(ops, mems, done, answers, m) && Does(op, did, mem)
    ensures Ran(ops + [op], mems + [mem], done + [did], answers + [AnswerTo(m, did)], Apply(m, did))
  {
    AnswersAppend(done, did);
  }

  method HashFind(table: H.Table, id: V.ConnId) returns (found: Found)
    requires table.Valid()
    ensures found == Lookup(table.Model(), id)
  {
    var con := table.Find(id);
    found := if con == null then Absent else Present(V.Tcb(con.id, con.send, con.recv, con.state));
  }

  method HashSize(table: H.Table) returns (size: nat)
    requires table.Valid()
    ensures size == |table.Model()|
  {
    SameSize(table.entries, table.Model());
    size := table.size;
  }

  method Fill(con: TcbVector.Tcb, block: V.Tcb)
    requires con.id == block.id
    modifies con
    ensures con.Value() == block
  {
    con.send, con.recv, con.state := block.send, block.recv, block.state;
  }

  method HashStore(table: H.Table, block: V.Tcb, mem: T.Memory) returns (ok: bool)
    requires table.Valid() && T.Conserved(table) && block.id !in table.entries
    modifies table, table.heap, table.cells
    ensures table.Valid() && T.Conserved(table) && fresh(table.cells - old(table.cells))
    ensures T.Shows(table.entries, if ok then old(table.Model())[block.id := block] else old(table.Model()))
    ensures mem == T.Memory(true, H.HT_SIZE, true) ==> ok
  {
    ghost var before := table.Model();
    var con := T.Create(table, block.id, mem);
    ok := con != null;
    if ok {
      Fill(con, block);
    }
    ghost var after := if ok then before[block.id := block] else before;
    forall i | i in after
      ensures T.Shown(table.entries, after, i)
    {
    }
  }

  method HashInsert(table: H.Table, block: V.Tcb, mem: T.Memory) returns (ok: bool)
    requires table.Valid() && T.Conserved(table) && block.id !in table.entries
    modifies table, table.heap, table.cells
    ensures table.Valid() && T.Conserved(table) && fresh(table.cells - old(table.cells))
    ensures table.Model() == if ok then old(table.Model())[block.id := block] else old(table.Model())
    ensures mem == T.Memory(true, H.HT_SIZE, true) ==> ok
  {
    ghost var before := table.Model();
    ok := HashStore(table, block, mem);
    T.ShowsModel(table, if ok then before[block.id := block] else before);
  }

  method HashDelete(table: H.Table, id: V.ConnId)
    requires table.Valid() && T.Conserved(table) && id in table.entries
    modifies table, table.heap, table.cells
    ensures table.Valid() && T.Conserved(table) && table.cells == old(table.cells)
    ensures table.Model() == old(table.Model()) - {id}
  {
    var tcb := table.Find(id);
    T.Remove(table, tcb);
  }

  method HashChange(table: H.Table, op: Op, found: Found, mem: T.Memory) returns (did: Op)
    requires table.Valid() && T.Conserved(table) && found == Lookup(table.Model(), IdOf(op))
    modifies table, table.heap, table.cells
    ensures table.Valid() && T.Conserved(table) && fresh(table.cells - old(table.cells))
    ensures Does(op, did, mem) && table.Model() == Apply(old(table.Model()), did)
  {
    did := op;
    if op.Insert? && found.Absent? {
      var ok := HashInsert(table, op.block, mem);
      did := if ok then op else Find(op.block.id);
    } else if op.Delete? && found.Present? {
      HashDelete(table, op.id);
    }
  }

  method HashOp(table: H.Table, op: Op, mem: T.Memory) returns (a: Answer, did: Op)
    requires table.Valid() && T.Conserved(table)
    modifies table, table.heap, table.cells
    ensures table.Valid() && T.Conserved(table) && fresh(table.cells - old(table.cells))
    ensures Does(op, did, mem) && table.Model() == Apply(old(table.Model()), did)
    ensures a == AnswerTo(old(table.Model()), did)
  {
    ghost var m := table.Model();
    var found := HashFind(table, IdOf(op));
    did := HashChange(table, op, found, mem);
    assert table.Model() == Apply(m, did);
    var size := HashSize(table);
    a := Answer(found, size);
  }

  method RunHash(ops: seq<Op>, mems: seq<T.Memory>) returns (answers: seq<Answer>, done: seq<Op>)
    requires |mems| == |ops|
    ensures Ran(ops, mems, done, answers, After(done))
  {
    var table := new H.Table();
    answers, done := [], [];
    for k := 0 to |ops|
      invariant table.Valid() && T.Conserved(table) && fresh(table) && fresh(table.heap) && fresh(table.cells)
      invariant Ran(ops[..k], mems[..k], done, answers, table.Model())
    {
      ghost var m := table.Model();
      var a, did := HashOp(table, ops[k], mems[k]);
      RanAppend(ops[..k], mems[..k], done, answers, m, ops[k], mems[k], did);
      OneMore(ops, k);
      OneMore(mems, k);
      answers, done := answers + [a], done + [did];
    }
    assert ops[..|ops|] == ops && mems[..|ops|] == mems;
  }

  // ------------------------------------------------------------------ the linked list

  method ListFind(list: L.List, id: V.ConnId) returns (found: Found)
    requires list.Valid()
    ensures found == Lookup(list.Model(), id)
  {
    var con := list.Get(id);
    found := if con == null then Absent else Present(V.Tcb(con.id, con.send, con.recv, con.state));
  }

  method ListSize(list: L.List) returns (size: nat)
    requires list.Valid()
    ensures size == |list.Model()|
  {
    SameSize(list.entries, list.Model());
    size := list.size;
  }

  method FillNode(con: L.Tcb, block: V.Tcb)
    requires con.id == block.id
    modifies con`send, con`recv, con`state
    ensures con.Value() == block
  {
    con.send, con.recv, con.state := block.send, block.recv, block.state;
  }

  method ListInsert(list: L.List, block: V.Tcb) returns (con: L.Tcb)
    requires list.Valid() && block.id !in list.entries
    modifies list, list.spine
    ensures list.Valid() && fresh(con) && list.spine == old(list.spine) + [con]
    ensures list.Model() == old(list.Model())[block.id := block]
  {
    ghost var before := list.Model();
    con := O.Open(list, block.id);
    FillNode(con, block);
    O.OneMore(list, before, con);
  }

  method ListDelete(list: L.List, id: V.ConnId)
    requires list.Valid() && id in list.entries
    modifies list, list.spine
    ensures list.Valid() && forall i :: 0 <= i < |list.spine| ==> list.spine[i] in old(list.spine)
    ensures list.Model() == old(list.Model()) - {id}
  {
    var tcb := list.Get(id);
    O.EntriesInSpine(list);
    list.Remove(tcb);
  }

  method ListChange(list: L.List, op: Op, found: Found)
    requires list.Valid() && found == Lookup(list.Model(), IdOf(op))
    modifies list, list.spine
    ensures list.Valid() && forall i :: 0 <= i < |list.spine| ==> fresh(list.spine[i]) || list.spine[i] in old(list.spine)
    ensures list.Model() == Apply(old(list.Model()), op)
  {
    if op.Insert? && found.Absent? {
      var con := ListInsert(list, op.block);
    } else if op.Delete? && found.Present? {
      ListDelete(list, op.id);
    }
  }

  method ListOp(list: L.List, op: Op) returns (a: Answer)
    requires list.Valid()
    modifies list, list.spine
    ensures list.Valid() && forall i :: 0 <= i < |list.spine| ==> fresh(list.spine[i]) || list.spine[i] in old(list.spine)
    ensures list.Model() == Apply(old(list.Model()), op)
    ensures a == AnswerTo(old(list.Model()), op)
  {
    var found := ListFind(list, IdOf(op));
    ListChange(list, op, found);
    var size := ListSize(list);
    a := Answer(found, size);
  }

  method RunList(ops: seq<Op>) returns (answers: seq<Answer>)
    ensures answers == AnswersTo(ops)
  {
    var list := new L.List();
    answers := [];
    for k := 0 to |ops|
      invariant list.Valid() && fresh(list) && forall i :: 0 <= i < |list.spine| ==> fresh(list.spine[i])
      invariant list.Model() == After(ops[..k]) && answers == AnswersTo(ops[..k])
    {
      var a := ListOp(list, ops[k]);
      AnswersAppend(ops[..k], ops[k]);
      OneMore(ops, k);
      answers := answers + [a];
    }
    assert ops[..|ops|] == ops;
  }

  /** For every sequence of operations and whatever memory the hash table finds, both give the
      answers of a finite map on the operations that were done, and so the same; and with memory
      for every insert, those are all of them. */
  method RunBoth(ops: seq<Op>, mems: seq<T.Memory>) returns (hashed: seq<Answer>, listed: seq<Answer>, done: seq<Op>)
    requires |mems| == |ops|
    ensures Ran(ops, mems, done, hashed, After(done))
    ensures hashed == listed == AnswersTo(done)
    ensures (forall m :: m in mems ==> m == T.Memory(true, H.HT_SIZE, true)) ==> done == ops
  {
    hashed, done := RunHash(ops, mems);
    listed := RunList(done);
    assert forall k :: 0 <= k < |ops| ==> mems[k] in mems && Does(ops[k], done[k], mems[k]);
  }
}
