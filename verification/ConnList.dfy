/** The connection list of the older stack: control blocks linked through themselves. */
module ConnList {
  import V = TcbValues

  class Tcb {
    const id: V.ConnId
    var send: V.SendState
    var recv: V.RecvState
    var state: V.ConState
    var next: Tcb?

    ghost function Value(): V.Tcb
      reads this
    {
      V.Tcb(id, send, recv, state)
    }

    /** `tcp_init_tcb`: a block starts in SYN_RECEIVED. */
    constructor (id: V.ConnId)
      ensures Value() == OldTcb(id) && next == null
    {
      this.id := id;
      send := V.SendState(0, 0, 0, 0);
      recv := V.RecvState(0, V.WINDOW, 0);
      state := V.SynReceived;
      next := null;
    }
  }

  /** A block as `tcp_init_tcb` leaves it. */
  function OldTcb(id: V.ConnId): V.Tcb {
    V.NewTcb(id).(state := V.SynReceived)
  }

  type Entries = map<V.ConnId, Tcb>

  ghost predicate Placed(spine: seq<Tcb>, entries: Entries, i: nat)
    requires i < |spine|
  {
    spine[i].id in entries && entries[spine[i].id] == spine[i]
  }

  ghost predicate Stored(spine: seq<Tcb>, entries: Entries, id: V.ConnId)
    requires id in entries
  {
    entries[id].id == id && entries[id] in spine
  }

  ghost predicate Different(spine: seq<Tcb>, i: nat, j: nat)
    requires i < |spine| && j < |spine|
  {
    spine[i] != spine[j]
  }

  /** The blocks of `spine` are the entries, each once. */
  ghost predicate Lists(spine: seq<Tcb>, entries: Entries) {
    && (forall i, j {:trigger Different(spine, i, j)} :: 0 <= i < j < |spine| ==> Different(spine, i, j))
    && (forall i {:trigger Placed(spine, entries, i)} :: 0 <= i < |spine| ==> Placed(spine, entries, i))
    && (forall id {:trigger Stored(spine, entries, id)} :: id in entries ==> Stored(spine, entries, id))
    && |spine| == |entries|
  }

  lemma AllDifferent(spine: seq<Tcb>, entries: Entries)
    requires Lists(spine, entries)
    ensures forall i, j :: 0 <= i < j < |spine| ==> spine[i] != spine[j]
  {
    forall i, j | 0 <= i < j < |spine|
      ensures spine[i] != spine[j]
    {
      assert Different(spine, i, j);
    }
  }

  lemma ListsAppend(spine: seq<Tcb>, entries: Entries, tcb: Tcb)
    requires Lists(spine, entries) && tcb.id !in entries
    ensures Lists(spine + [tcb], entries[tcb.id := tcb])
  {
    var spine', entries' := spine + [tcb], entries[tcb.id := tcb];
    AllDifferent(spine, entries);
    assert entries'.Keys == entries.Keys + {tcb.id};
    forall i | 0 <= i < |spine'|
      ensures Placed(spine', entries', i) && (i < |spine| ==> spine'[i] != tcb)
    {
      assert i < |spine| ==> Placed(spine, entries, i);
    }
    forall id | id in entries'
      ensures Stored(spine', entries', id)
    {
      if id == tcb.id {
        assert spine'[|spine|] == tcb;
      } else {
        assert Stored(spine, entries, id);
      }
    }
  }

  lemma ListsRemove(spine: seq<Tcb>, entries: Entries, k: nat)
    requires Lists(spine, entries) && k < |spine|
    ensures Lists(spine[..k] + spine[k + 1..], entries - {spine[k].id})
  {
    var id := spine[k].id;
    var spine', entries' := spine[..k] + spine[k + 1..], entries - {id};
    AllDifferent(spine, entries);
    assert Placed(spine, entries, k);
    assert entries'.Keys == entries.Keys - {id};
    forall i | 0 <= i < |spine'|
      ensures Placed(spine', entries', i)
    {
      var j := if i < k then i else i + 1;
      assert spine'[i] == spine[j] && Placed(spine, entries, j);
    }
    forall i | i in entries'
      ensures Stored(spine', entries', i)
    {
      assert Stored(spine, entries, i);
      var j :| 0 <= j < |spine| && spine[j] == entries[i];
      assert spine'[if j < k then j else j - 1] == entries[i];
    }
  }

  // ------------------------------------------------------------------ the links

  /** The block at `i` points to its successor. */
  ghost predicate Follows(spine: seq<Tcb>, i: nat)
    requires i < |spine|
    reads spine`next
  {
    spine[i].next == if i + 1 < |spine| then spine[i + 1] else null
  }

  /** `head` and the `next` fields run through `spine`. */
  ghost predicate Linked(head: Tcb?, spine: seq<Tcb>)
    reads spine`next
  {
    && head == (if spine == [] then null else spine[0])
    && forall i {:trigger Follows(spine, i)} :: 0 <= i < |spine| ==> Follows(spine, i)
  }

  /** The search of `tcp_get_state`. */
  method Search(head: Tcb?, ghost spine: seq<Tcb>, id: V.ConnId) returns (found: Tcb?, tail: Tcb?)
    requires Linked(head, spine)
    ensures found != null ==> found in spine && found.id == id
    ensures found == null ==> forall i :: 0 <= i < |spine| ==> spine[i].id != id
    ensures found == null ==> tail == if spine == [] then null else spine[|spine| - 1]
  {
    found, tail := head, null;
    ghost var k := 0;
    while found != null
      invariant 0 <= k <= |spine| && found == if k < |spine| then spine[k] else null
      invariant tail == if k > 0 then spine[k - 1] else null
      invariant forall i :: 0 <= i < k ==> spine[i].id != id
      decreases |spine| - k
    {
      if found.id == id {
        return;
      }
      assert Follows(spine, k);
      tail := found;
      found := found.next;
      k := k + 1;
    }
  }

  /** Links `tcb` behind the last block. */
  method LinkLast(head: Tcb?, ghost spine: seq<Tcb>, tail: Tcb?, tcb: Tcb) returns (head': Tcb?)
    requires Linked(head, spine) && tcb !in spine && tcb.next == null
    requires forall i, j :: 0 <= i < j < |spine| ==> spine[i] != spine[j]
    requires tail == if spine == [] then null else spine[|spine| - 1]
    modifies if tail != null then {tail} else {}
    ensures Linked(head', spine + [tcb])
    ensures tail != null ==> tail.Value() == old(tail.Value())
  {
    if head == null {
      head' := tcb;
    } else {
      tail.next := tcb;
      head' := head;
    }
    forall i | 0 <= i < |spine| + 1
      ensures Follows(spine + [tcb], i)
    {
      if i < |spine| {
        assert old(Follows(spine, i));
      }
    }
  }

  /** The block before `tcb`, which is not the first, if `tcb` is there; `k` is its place. */
  method FindPrevious(head: Tcb?, ghost spine: seq<Tcb>, tcb: Tcb) returns (prev: Tcb?, ghost k: nat)
    requires Linked(head, spine) && head != tcb
    ensures prev != null ==> 0 < k < |spine| && spine[k] == tcb && prev == spine[k - 1]
    ensures prev == null ==> k == |spine| && tcb !in spine
  {
    prev, k := head, 0;
    while prev != null && prev.next != tcb
      invariant 0 <= k <= |spine| && prev == if k < |spine| then spine[k] else null
      invariant forall i :: 0 <= i <= k && i < |spine| ==> spine[i] != tcb
      decreases |spine| - k
    {
      assert Follows(spine, k);
      prev := prev.next;
      k := k + 1;
    }
    if prev != null {
      assert Follows(spine, k);
      k := k + 1;
    }
  }

  /** The spine without the block at `k`, if there is one. */
  ghost function Without(spine: seq<Tcb>, k: nat): seq<Tcb> {
    if k < |spine| then spine[..k] + spine[k + 1..] else spine
  }

  /** Takes `tcb` out of the chain if it is there; `k` is where it stood. */
  method Unlink(head: Tcb?, ghost spine: seq<Tcb>, tcb: Tcb) returns (head': Tcb?, ghost k: nat)
    requires Linked(head, spine)
    requires forall i, j :: 0 <= i < j < |spine| ==> spine[i] != spine[j]
    modifies spine
    ensures k <= |spine| && Linked(head', Without(spine, k))
    ensures if k < |spine| then spine[k] == tcb else tcb !in spine
    ensures forall t :: t in spine ==> t.Value() == old(t.Value())
  {
    if head == tcb {
      WithoutFirst(head, spine);
      return head.next, 0;
    }
    var prev;
    prev, k := FindPrevious(head, spine, tcb);
    if prev != null {
      Bypass(head, spine, prev, tcb, k);
    }
    head' := head;
  }

  /** Without its first block the chain begins at the second. */
  lemma WithoutFirst(head: Tcb, spine: seq<Tcb>)
    requires Linked(head, spine)
    ensures Linked(head.next, Without(spine, 0))
  {
    assert Follows(spine, 0);
    forall i | 0 <= i < |spine| - 1
      ensures Follows(Without(spine, 0), i)
    {
      assert Follows(spine, i + 1);
    }
  }

  /** Links the block before `tcb` to the one after it. */
  method Bypass(head: Tcb?, ghost spine: seq<Tcb>, prev: Tcb, tcb: Tcb, ghost k: nat)
    requires Linked(head, spine) && 0 < k < |spine| && spine[k] == tcb && spine[k - 1] == prev
    requires forall i, j :: 0 <= i < j < |spine| ==> spine[i] != spine[j]
    modifies prev
    ensures Linked(head, Without(spine, k))
    ensures prev.Value() == old(prev.Value())
  {
    assert Follows(spine, k);
    prev.next := tcb.next;
    ghost var rest := Without(spine, k);
    WithoutAt(spine, k, 0);
    forall i | 0 <= i < |rest|
      ensures Follows(rest, i)
    {
      assert old(Follows(spine, if i < k then i else i + 1));
      WithoutAt(spine, k, i);
    }
  }

  /** Where the blocks stand that remain. */
  lemma WithoutAt(spine: seq<Tcb>, k: nat, i: nat)
    requires k <= |spine| && i < |Without(spine, k)|
    ensures Without(spine, k)[i] == spine[if i < k then i else i + 1]
    ensures i + 1 < |Without(spine, k)| ==> Without(spine, k)[i + 1] == spine[if i + 1 < k then i + 1 else i + 2]
  {
  }

  // ------------------------------------------------------------------ the list

  class List {
    var head: Tcb?
    var size: int
    ghost var spine: seq<Tcb>
    ghost var entries: Entries

    ghost predicate Valid()
      reads this, spine`next
    {
      Lists(spine, entries) && size == |spine| && Linked(head, spine)
    }

    /** The finite map that the list stands for. */
    ghost function Model(): map<V.ConnId, V.Tcb>
      reads this, entries.Values
    {
      map id | id in entries :: entries[id].Value()
    }

    /** `tcp_init_server_instance`. */
    constructor ()
      ensures Valid() && entries == map[] && spine == []
    {
      head, size, spine, entries := null, 0, [], map[];
    }

    /** `tcp_get_state`. */
    method Get(id: V.ConnId) returns (found: Tcb?)
      requires Valid()
      ensures found == if id in entries then entries[id] else null
    {
      var tail;
      found, tail := Search(head, spine, id);
      if id in entries {
        assert Stored(spine, entries, id);
      }
      if found != null {
        ghost var k :| 0 <= k < |spine| && spine[k] == found;
        assert Placed(spine, entries, k);
      }
    }

    /** `tcp_insert_tcb`: appends unless the identifier is already there. A block that is appended
        must not point anywhere, as `tcp_init_tcb` leaves it. */
    method Insert(tcb: Tcb)
      requires Valid() && (tcb.id !in entries ==> tcb.next == null)
      modifies this, spine
      ensures Valid() && size == |entries|
      ensures tcb.id in old(entries) ==> spine == old(spine) && entries == old(entries)
      ensures tcb.id !in old(entries) ==> spine == old(spine) + [tcb] && entries == old(entries)[tcb.id := tcb]
      ensures forall t :: t in old(spine) ==> t.Value() == old(t.Value())
    {
      var found, tail := Search(head, spine, tcb.id);
      if found != null {
        ghost var k :| 0 <= k < |spine| && spine[k] == found;
        assert Placed(spine, entries, k);
        return;
      }
      assert tcb.id in entries ==> Stored(spine, entries, tcb.id);
      assert forall i :: 0 <= i < |spine| ==> spine[i].id != tcb.id;
      ListsAppend(spine, entries, tcb);
      AllDifferent(spine, entries);
      head := LinkLast(head, spine, tail, tcb);
      size, spine, entries := size + 1, spine + [tcb], entries[tcb.id := tcb];
    }

    /** `tcp_remove_connection`. A block that is not in the list leaves `size` wrong, and so the
        list no longer valid. */
    method Remove(tcb: Tcb)
      requires Valid()
      modifies this, spine
      ensures Valid() <==> tcb in old(spine)
      ensures size == old(size) - 1 && (tcb in old(spine) ==> size == |entries|)
      ensures entries == if tcb in old(spine) then old(entries) - {tcb.id} else old(entries)
      ensures forall t :: t in old(spine) ==> t.Value() == old(t.Value())
      ensures forall t :: t in spine ==> t in old(spine)
    {
      AllDifferent(spine, entries);
      ghost var k;
      head, k := Unlink(head, spine, tcb);
      if k < |spine| {
        ListsRemove(spine, entries, k);
        entries := entries - {tcb.id};
      }
      size, spine := size - 1, Without(spine, k);
    }
  }
}
