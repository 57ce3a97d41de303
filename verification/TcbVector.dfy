/** Control blocks on the heap, and the growable vectors that hold pointers to them. */
module TcbVector {
  import V = TcbValues

  const DEF_CAP := 16

  /** A control block. Its identifier never changes once `tcb_init` has set it. */
  class Tcb {
    const id: V.ConnId
    var send: V.SendState
    var recv: V.RecvState
    var state: V.ConState

    ghost function Value(): V.Tcb
      reads this
    {
      V.Tcb(id, send, recv, state)
    }

    constructor (id: V.ConnId)
      ensures Value() == V.NewTcb(id)
    {
      this.id := id;
      send := V.SendState(0, 0, 0, 0);
      recv := V.RecvState(0, V.WINDOW, 0);
      state := V.Closed;
    }
  }

  /** The allocator: `live` holds the blocks that have been allocated and not freed. */
  class Heap {
    ghost var live: set<Tcb>

    constructor ()
      ensures live == {}
    {
      live := {};
    }

    /** `tcb_init`; `memory` says whether malloc succeeds. */
    method NewTcb(id: V.ConnId, memory: bool) returns (tcb: Tcb?)
      modifies this
      ensures !memory ==> tcb == null && live == old(live)
      ensures memory ==> tcb != null && fresh(tcb) && tcb.Value() == V.NewTcb(id) && live == old(live) + {tcb}
    {
      if !memory {
        return null;
      }
      tcb := new Tcb(id);
      live := live + {tcb};
    }

    /** free: the block must be live, so nothing is freed twice. */
    method Free(tcb: Tcb)
      requires tcb in live
      modifies this
      ensures live == old(live) - {tcb}
    {
      live := live - {tcb};
    }
  }

  /** The blocks of `s` are there and have pairwise different identifiers. */
  ghost predicate Distinct(s: seq<Tcb?>) {
    && (forall i :: 0 <= i < |s| ==> s[i] != null)
    && (forall i, j :: 0 <= i < j < |s| ==> s[i].id != s[j].id)
  }

  /** Swap-and-pop: the last element takes the place of the one at `i`. */
  function SwapPop<T>(s: seq<T>, i: nat): seq<T>
    requires i < |s|
  {
    s[i := s[|s| - 1]][..|s| - 1]
  }

  class Vector {
    var data: array?<Tcb?>
    var capacity: nat
    var size: nat

    ghost predicate Valid()
      reads this, data
    {
      && data != null && data.Length == capacity && 0 < capacity && size <= capacity
      && forall i :: 0 <= i < size ==> data[i] != null
    }

    ghost function Items(): seq<Tcb?>
      requires Valid()
      reads this, data
    {
      data[..size]
    }

    /** A zeroed structure, as in the static table. */
    constructor ()
      ensures data == null && capacity == 0 && size == 0
    {
      data, capacity, size := null, 0, 0;
    }

    method Init(memory: bool) returns (ok: bool)
      modifies this
      ensures ok == memory
      ensures ok ==> Valid() && Items() == [] && fresh(data) && capacity == 16
      ensures !ok ==> data == old(data) && capacity == old(capacity) && size == old(size)
    {
      if !memory {
        return false;
      }
      data := new Tcb?[DEF_CAP];
      capacity, size := DEF_CAP, 0;
      return true;
    }

    /** Appends `tcb`, doubling the storage when it is full; only that may fail. */
    method Push(tcb: Tcb, memory: bool) returns (ok: bool)
      requires Valid()
      modifies this, data
      ensures Valid() && (data == old(data) || fresh(data))
      ensures ok == (memory || old(size) < old(capacity))
      ensures Items() == if ok then old(Items()) + [tcb] else old(Items())
      ensures capacity == if ok && old(size) == old(capacity) then old(capacity) * 2 else old(capacity)
    {
      if size == capacity {
        if !memory {
          return false;
        }
        var bigger := new Tcb?[capacity * 2];
        for i := 0 to size
          invariant forall k :: 0 <= k < i ==> bigger[k] == data[k]
          modifies bigger
        {
          bigger[i] := data[i];
        }
        data, capacity := bigger, capacity * 2;
      }
      data[size] := tcb;
      size := size + 1;
      return true;
    }

    /** Looks only into blocks that are live. */
    method Find(id: V.ConnId, ghost live: set<Tcb>) returns (tcb: Tcb?)
      requires Valid() && forall t :: t in Items() ==> t in live
      ensures tcb != null ==> tcb in Items() && tcb.id == id
      ensures tcb == null ==> forall t :: t in Items() ==> t.id != id
    {
      for i := 0 to size
        invariant forall k :: 0 <= k < i ==> data[k].id != id
      {
        assert data[i] in Items() && data[i] in live;
        if data[i].id == id {
          return data[i];
        }
      }
      return null;
    }

    /** Frees the first block whose identifier is that of `tcb` and fills its place with the
        last; `at` is its index, or the size when there is none and nothing changes. */
    method Delete(tcb: Tcb, heap: Heap) returns (ghost at: nat)
      requires Valid() && tcb in heap.live
      requires forall t :: t in Items() ==> t in heap.live
      modifies this, data, heap
      ensures Valid() && data == old(data)
      ensures at <= |old(Items())| && forall k :: 0 <= k < at ==> old(Items())[k].id != tcb.id
      ensures at < |old(Items())| ==> old(Items())[at].id == tcb.id && Items() == SwapPop(old(Items()), at)
      ensures at == |old(Items())| ==> Items() == old(Items())
      ensures heap.live == old(heap.live) - (if at < |old(Items())| then {old(Items())[at]} else {})
    {
      for i := 0 to size
        invariant forall k :: 0 <= k < i ==> data[k].id != tcb.id
      {
        if data[i].id == tcb.id {
          heap.Free(data[i]);
          data[i] := data[size - 1];
          size := size - 1;
          return i;
        }
      }
      return size;
    }

    /** Frees every block and the storage. */
    method Destroy(heap: Heap)
      requires Valid() && Distinct(Items())
      requires forall t :: t in Items() ==> t in heap.live
      modifies this, heap
      ensures data == null && size == 0 && capacity == 0
      ensures heap.live == old(heap.live) - set t | t in old(Items())
    {
      for i := 0 to size
        invariant Valid() && size == old(size) && Items() == old(Items())
        invariant heap.live == old(heap.live) - set t | t in Items()[..i]
      {
        heap.Free(data[i]);
        assert Items()[..i + 1] == Items()[..i] + [data[i]];
      }
      assert Items()[..size] == Items();
      data, size, capacity := null, 0, 0;
    }
  }
}
