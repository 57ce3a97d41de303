/** The connection table: 256 vectors indexed by a hash of the connection identifier. */
module HashTable {
  import V = TcbValues
  import opened TcbVector

  const HT_SIZE := 256
  const SIZE_MAX := 0xFFFF_FFFF_FFFF_FFFF

  type Bucket = b: nat | b < HT_SIZE

  type Chains = seq<seq<Tcb?>>
  type Entries = map<V.ConnId, Tcb>

  /** `hash_id`. */
  function HashId(id: V.ConnId): Bucket {
    (Mixed(Folded(id.srcIp as bv32, id.dstIp as bv32, id.srcPort as bv32, id.dstPort as bv32)) as bv8) as nat
  }

  /** The addresses folded together with the ports. */
  function Folded(src: bv32, dst: bv32, srcPort: bv32, dstPort: bv32): bv32 {
    var h := src ^ dst;
    h ^ ((srcPort << 16) | dstPort)
  }

  lemma PortsSideBySide(src: bv32, dst: bv32, srcPort: bv32, dstPort: bv32)
    requires dstPort < 0x1_0000
    ensures Folded(src, dst, srcPort, dstPort) == src ^ dst ^ (srcPort * 0x1_0000 + dstPort)
  {
  }

  /** The mixing steps and the remainder. */
  function Mixed(h1: bv32): (r: bv32)
    ensures r < 256
  {
    var h2 := h1 + (h1 << 10);
    var h3 := h2 ^ (h2 >> 6);
    var h4 := h3 + (h3 << 3);
    var h5 := h4 ^ (h4 >> 11);
    var h6 := h5 + (h5 << 15);
    h6 % 256
  }

  /** The mixing steps are two multiplications and two folds. The last one of the code changes only
      bits that the remainder drops. */
  lemma MixedIsLowByte(h: bv32)
    ensures var f := h * 1025;
            var g := (f ^ (f >> 6)) * 9;
            Mixed(h) == (g ^ (g >> 11)) & 0xFF
  {
  }

  /** Some buckets. */
  lemma HashExamples()
    ensures Mixed(Folded(0x0A00_0001, 0x0A00_0002, 40000, 8080)) == 1
    ensures Mixed(Folded(0, 0, 1, 0)) == 36
    ensures Mixed(Folded(0, 0, 0, 1)) == Mixed(Folded(0, 1, 0, 0)) == Mixed(Folded(1, 0, 0, 0)) == 157
  {
  }

  // ------------------------------------------------------------------ chains refine a map

  /** `tcb` may stand in bucket `b`. */
  ghost predicate Placed(tcb: Tcb?, b: int, entries: Entries, hash: V.ConnId -> Bucket) {
    tcb != null && tcb.id in entries && entries[tcb.id] == tcb && hash(tcb.id) == b
  }

  /** The entry for `id` stands in its bucket. */
  ghost predicate Stored(id: V.ConnId, chains: Chains, entries: Entries, hash: V.ConnId -> Bucket)
    requires |chains| == HT_SIZE && id in entries
  {
    entries[id].id == id && entries[id] in chains[hash(id)]
  }

  /** The chains hold exactly the entries of the map, each once and in the bucket it hashes to. */
  ghost predicate Refines(chains: Chains, entries: Entries, hash: V.ConnId -> Bucket) {
    && |chains| == HT_SIZE
    && (forall b {:trigger Distinct(chains[b])} :: 0 <= b < HT_SIZE ==> Distinct(chains[b]))
    && (forall b, k {:trigger Placed(chains[b][k], b, entries, hash)} ::
          0 <= b < HT_SIZE && 0 <= k < |chains[b]| ==> Placed(chains[b][k], b, entries, hash))
    && (forall id {:trigger Stored(id, chains, entries, hash)} :: id in entries ==> Stored(id, chains, entries, hash))
  }

  /** The sum of the bucket sizes. */
  ghost function TotalSize(chains: Chains): nat {
    if chains == [] then 0 else |chains[0]| + TotalSize(chains[1..])
  }

  lemma {:induction false} TotalSizeUpdate(chains: Chains, b: nat, chain: seq<Tcb?>)
    requires b < |chains|
    ensures TotalSize(chains[b := chain]) + |chains[b]| == TotalSize(chains) + |chain|
  {
    if b == 0 {
      assert chains[b := chain][1..] == chains[1..];
    } else {
      TotalSizeUpdate(chains[1..], b - 1, chain);
      assert chains[b := chain][1..] == chains[1..][b - 1 := chain];
    }
  }

  lemma {:induction false} TotalSizeEmpty(chains: Chains)
    requires forall b :: 0 <= b < |chains| ==> chains[b] == []
    ensures TotalSize(chains) == 0
  {
    if chains != [] {
      TotalSizeEmpty(chains[1..]);
    }
  }

  lemma PushRefines(chains: Chains, entries: Entries, hash: V.ConnId -> Bucket, tcb: Tcb)
    requires Refines(chains, entries, hash) && tcb.id !in entries
    ensures var b := hash(tcb.id);
            Refines(chains[b := chains[b] + [tcb]], entries[tcb.id := tcb], hash)
  {
    var b := hash(tcb.id);
    var chains', entries' := chains[b := chains[b] + [tcb]], entries[tcb.id := tcb];
    forall c | 0 <= c < HT_SIZE
      ensures Distinct(chains'[c])
    {
      assert Distinct(chains[c]);
      assert forall k :: 0 <= k < |chains[b]| ==> Placed(chains[b][k], b, entries, hash);
    }
    forall c, k | 0 <= c < HT_SIZE && 0 <= k < |chains'[c]|
      ensures Placed(chains'[c][k], c, entries', hash)
    {
      if c != b || k < |chains[b]| {
        assert Placed(chains[c][k], c, entries, hash);
      }
    }
    forall id | id in entries'
      ensures Stored(id, chains', entries', hash)
    {
      if id == tcb.id {
        assert chains'[b][|chains[b]|] == tcb;
      } else {
        assert Stored(id, chains, entries, hash);
      }
    }
  }

  /** An entry has an index in its bucket. */
  lemma Position(chains: Chains, entries: Entries, hash: V.ConnId -> Bucket, id: V.ConnId) returns (k: nat)
    requires Refines(chains, entries, hash) && id in entries
    ensures k < |chains[hash(id)]| && chains[hash(id)][k] == entries[id] && entries[id].id == id
  {
    assert Stored(id, chains, entries, hash);
    k :| 0 <= k < |chains[hash(id)]| && chains[hash(id)][k] == entries[id];
  }

  /** What is not found in its bucket is not in the table. */
  lemma NotThere(chains: Chains, entries: Entries, hash: V.ConnId -> Bucket, id: V.ConnId)
    requires Refines(chains, entries, hash)
    requires forall t :: t in chains[hash(id)] ==> t != null && t.id != id
    ensures id !in entries
  {
    assert id in entries ==> Stored(id, chains, entries, hash);
  }

  lemma SwapPopElements(s: seq<Tcb?>, at: nat, t: Tcb?)
    requires at < |s| && Distinct(s)
    ensures Distinct(SwapPop(s, at))
    ensures t in SwapPop(s, at) <==> t in s && t != s[at]
  {
    var r := SwapPop(s, at);
    if t in s && t != s[at] {
      var k :| 0 <= k < |s| && s[k] == t;
      assert if k < |s| - 1 then r[k] == t else r[at] == t;
    }
  }

  lemma DeleteRefines(chains: Chains, entries: Entries, hash: V.ConnId -> Bucket, id: V.ConnId, at: nat)
    requires Refines(chains, entries, hash) && id in entries
    requires at < |chains[hash(id)]| && chains[hash(id)][at] != null && chains[hash(id)][at].id == id
    ensures chains[hash(id)][at] == entries[id]
    ensures Refines(chains[hash(id) := SwapPop(chains[hash(id)], at)], entries - {id}, hash)
  {
    var b := hash(id);
    var chains', entries' := chains[b := SwapPop(chains[b], at)], entries - {id};
    assert Placed(chains[b][at], b, entries, hash);
    forall c | 0 <= c < HT_SIZE
      ensures Distinct(chains'[c])
    {
      assert Distinct(chains[c]);
      SwapPopElements(chains[b], at, null);
    }
    forall c, k | 0 <= c < HT_SIZE && 0 <= k < |chains'[c]|
      ensures Placed(chains'[c][k], c, entries', hash)
    {
      var t := chains'[c][k];
      if c == b {
        SwapPopElements(chains[b], at, t);
        assert t in chains'[b];
      }
      var j :| 0 <= j < |chains[c]| && chains[c][j] == t;
      assert Placed(chains[c][j], c, entries, hash);
    }
    forall i | i in entries'
      ensures Stored(i, chains', entries', hash)
    {
      assert Stored(i, chains, entries, hash);
      SwapPopElements(chains[b], at, entries[i]);
    }
  }

  // ------------------------------------------------------------------ the buckets

  /** Bucket `i` is a vector made of `cells` and holds its chain. */
  ghost predicate Holds(buckets: seq<Vector>, chains: Chains, cells: set<object>, i: nat)
    requires i < |buckets| == |chains|
    reads cells
  {
    buckets[i] in cells && buckets[i].data in cells && buckets[i].Valid() && buckets[i].Items() == chains[i]
  }

  ghost predicate Apart(buckets: seq<Vector>, cells: set<object>, i: nat, j: nat)
    requires i < |buckets| && j < |buckets|
    reads cells
  {
    buckets[i] in cells && buckets[j] in cells && buckets[i] != buckets[j] && buckets[i].data != buckets[j].data
  }

  /** Separate vectors, each holding its chain; `cells` are the objects they are made of. */
  ghost predicate Wired(buckets: seq<Vector>, chains: Chains, cells: set<object>)
    reads cells
  {
    && |buckets| == |chains|
    && (forall i {:trigger Holds(buckets, chains, cells, i)} :: 0 <= i < |buckets| ==> Holds(buckets, chains, cells, i))
    && (forall i, j {:trigger Apart(buckets, cells, i, j)} ::
          0 <= i < |buckets| && 0 <= j < |buckets| && i != j ==> Apart(buckets, cells, i, j))
  }

  /** Separate vectors, in whatever state a failed setup left them. */
  ghost predicate Bare(buckets: seq<Vector>, cells: set<object>) {
    && (forall v :: v in buckets ==> v in cells)
    && (forall i, j :: 0 <= i < j < |buckets| ==> buckets[i] != buckets[j])
  }

  lemma WiredIsBare(buckets: seq<Vector>, chains: Chains, cells: set<object>)
    requires Wired(buckets, chains, cells)
    ensures Bare(buckets, cells)
  {
    forall i | 0 <= i < |buckets|
      ensures buckets[i] in cells
    {
      assert Holds(buckets, chains, cells, i);
    }
    forall i, j | 0 <= i < j < |buckets|
      ensures buckets[i] != buckets[j]
    {
      assert Apart(buckets, cells, i, j);
    }
  }

  /** The chains refine the map, and `size` counts both. */
  ghost predicate Indexed(chains: Chains, entries: Entries, hash: V.ConnId -> Bucket, size: nat) {
    Refines(chains, entries, hash) && size == |entries| == TotalSize(chains)
  }

  /** The map with `tcb`, unless its identifier is taken. */
  ghost function WithNew(entries: Entries, tcb: Tcb): Entries {
    if tcb.id in entries then entries else entries[tcb.id := tcb]
  }

  /** Appending a block keeps chains, map and count together exactly if its identifier is new. */
  lemma PushIndexed(chains: Chains, entries: Entries, hash: V.ConnId -> Bucket, size: nat, tcb: Tcb)
    requires Indexed(chains, entries, hash, size)
    ensures var b := hash(tcb.id);
            Indexed(chains[b := chains[b] + [tcb]], WithNew(entries, tcb), hash, size + 1) <==> tcb.id !in entries
  {
    if tcb.id !in entries {
      var b := hash(tcb.id);
      PushRefines(chains, entries, hash, tcb);
      TotalSizeUpdate(chains, b, chains[b] + [tcb]);
      assert entries[tcb.id := tcb].Keys == entries.Keys + {tcb.id};
    }
  }

  lemma DeleteIndexed(chains: Chains, entries: Entries, hash: V.ConnId -> Bucket, size: nat, id: V.ConnId, at: nat)
    requires Indexed(chains, entries, hash, size)
    requires at < |chains[hash(id)]| && chains[hash(id)][at] != null && chains[hash(id)][at].id == id
    ensures id in entries && chains[hash(id)][at] == entries[id] && size > 0
    ensures Indexed(chains[hash(id) := SwapPop(chains[hash(id)], at)], entries - {id}, hash, size - 1)
  {
    var b := hash(id);
    assert Placed(chains[b][at], b, entries, hash);
    DeleteRefines(chains, entries, hash, id, at);
    TotalSizeUpdate(chains, b, SwapPop(chains[b], at));
    assert (entries - {id}).Keys == entries.Keys - {id};
  }

  /** A block is in some chain exactly when it is an entry; it is in one chain only, and live. */
  lemma ChainsAreEntries(chains: Chains, entries: Entries, hash: V.ConnId -> Bucket, live: set<Tcb>, cells: set<object>)
    requires Refines(chains, entries, hash) && AllLive(entries, live, cells)
    ensures forall b :: 0 <= b < HT_SIZE ==> Distinct(chains[b])
    ensures forall b, k :: 0 <= b < HT_SIZE && 0 <= k < |chains[b]| ==> chains[b][k] in live
    ensures forall b, c, k, l :: 0 <= b < c < HT_SIZE && 0 <= k < |chains[b]| && 0 <= l < |chains[c]| ==>
              chains[b][k] != chains[c][l]
    ensures forall t: Tcb :: (forall b :: 0 <= b < HT_SIZE ==> t !in chains[b]) <==> t !in entries.Values
  {
    forall b | 0 <= b < HT_SIZE
      ensures Distinct(chains[b])
    {
    }
    forall b, k | 0 <= b < HT_SIZE && 0 <= k < |chains[b]|
      ensures Placed(chains[b][k], b, entries, hash) && chains[b][k] in live
    {
      assert Placed(chains[b][k], b, entries, hash);
    }
    forall t: Tcb
      ensures (forall b :: 0 <= b < HT_SIZE ==> t !in chains[b]) <==> t !in entries.Values
    {
      if t in entries.Values {
        var id :| id in entries && entries[id] == t;
        assert Stored(id, chains, entries, hash);
      }
    }
  }

  /** Every entry's block is live, and none is part of the table itself. */
  ghost predicate AllLive(entries: Entries, live: set<Tcb>, cells: set<object>) {
    forall id :: id in entries ==> entries[id] in live && entries[id].id == id && entries[id] !in cells
  }

  /** A vector as `vec_init` leaves it. */
  ghost predicate Emptied(v: Vector, cells: set<object>)
    reads v, v.data
  {
    v.data in cells && v.Valid() && v.Items() == []
  }

  /** The loop of `hash_init`; it stops at the bucket whose allocation fails. */
  method InitBuckets(buckets: seq<Vector>, ghost cells: set<object>, failAt: nat) returns (ok: bool, ghost cells': set<object>)
    requires Bare(buckets, cells)
    modifies buckets
    ensures ok == (failAt >= |buckets|)
    ensures ok ==> Wired(buckets, seq(|buckets|, _ => []), cells')
    ensures cells <= cells' && fresh(cells' - cells)
    ensures forall i :: 0 <= i < |buckets| && i < failAt ==> Emptied(buckets[i], cells') && fresh(buckets[i].data)
    ensures forall i, j :: 0 <= i < j < |buckets| && j < failAt ==> buckets[i].data != buckets[j].data
    ensures forall i :: failAt <= i < |buckets| ==>
              buckets[i].data == old(buckets[i].data) && buckets[i].size == old(buckets[i].size)
              && buckets[i].capacity == old(buckets[i].capacity)
  {
    cells' := cells;
    for i := 0 to |buckets|
      invariant i <= failAt
      invariant cells <= cells' && fresh(cells' - cells)
      invariant forall j :: 0 <= j < i ==> Emptied(buckets[j], cells') && fresh(buckets[j].data)
      invariant forall j :: i <= j < |buckets| ==>
                  buckets[j].data == old(buckets[j].data) && buckets[j].size == old(buckets[j].size)
                  && buckets[j].capacity == old(buckets[j].capacity)
      invariant forall j, k :: 0 <= j < k < i ==> buckets[j].data != buckets[k].data
    {
      var made := buckets[i].Init(i != failAt);
      if !made {
        return false, cells';
      }
      cells' := cells' + {buckets[i].data};
    }
    return true, cells';
  }

  /** The chains when those before `k` have been emptied. */
  ghost function Truncated(chains: Chains, k: nat): Chains {
    seq(|chains|, b requires 0 <= b < |chains| => if b < k then [] else chains[b])
  }

  /** The entries that do not hash to a bucket before `k`. */
  ghost function Surviving(entries: Entries, hash: V.ConnId -> Bucket, k: nat): Entries {
    map id | id in entries && hash(id) >= k :: entries[id]
  }

  /** The same on buckets that are set up already: those before the failure are emptied. */
  method InitAgain(buckets: seq<Vector>, ghost chains: Chains, ghost cells: set<object>, failAt: nat)
    returns (ok: bool, ghost cells': set<object>)
    requires Wired(buckets, chains, cells)
    modifies buckets
    ensures ok == (failAt >= |buckets|)
    ensures Wired(buckets, Truncated(chains, failAt), cells')
    ensures cells <= cells' && fresh(cells' - cells)
  {
    WiredIsBare(buckets, chains, cells);
    ok, cells' := InitBuckets(buckets, cells, failAt);
    forall i | 0 <= i < |buckets|
      ensures Holds(buckets, Truncated(chains, failAt), cells', i)
    {
      assert old(Holds(buckets, chains, cells, i));
    }
    forall i, j | 0 <= i < |buckets| && 0 <= j < |buckets| && i != j
      ensures Apart(buckets, cells', i, j)
    {
      assert old(Apart(buckets, cells, i, j)) && old(Holds(buckets, chains, cells, i)) && old(Holds(buckets, chains, cells, j));
    }
  }

  lemma TruncatedRefines(chains: Chains, entries: Entries, hash: V.ConnId -> Bucket, k: nat)
    requires Refines(chains, entries, hash)
    ensures Refines(Truncated(chains, k), Surviving(entries, hash, k), hash)
  {
    var chains', entries' := Truncated(chains, k), Surviving(entries, hash, k);
    forall b | 0 <= b < HT_SIZE
      ensures Distinct(chains'[b])
    {
      assert Distinct(chains[b]);
    }
    forall b, l | 0 <= b < HT_SIZE && 0 <= l < |chains'[b]|
      ensures Placed(chains'[b][l], b, entries', hash)
    {
      assert Placed(chains[b][l], b, entries, hash);
    }
    forall id | id in entries'
      ensures Stored(id, chains', entries', hash)
    {
      assert Stored(id, chains, entries, hash);
    }
  }

  /** Setting up again without correcting the count keeps chains, map and count together exactly if
      no entry was lost. */
  lemma TruncatedIndexed(chains: Chains, entries: Entries, hash: V.ConnId -> Bucket, size: nat, k: nat)
    requires Indexed(chains, entries, hash, size)
    ensures var entries' := Surviving(entries, hash, k);
            Indexed(Truncated(chains, k), entries', hash, size) <==> entries' == entries
  {
    var chains', entries' := Truncated(chains, k), Surviving(entries, hash, k);
    assert entries'.Keys <= entries.Keys && |entries'| == |entries'.Keys| && |entries| == |entries.Keys|;
    if entries' == entries {
      forall b | 0 <= b < HT_SIZE
        ensures chains'[b] == chains[b]
      {
        assert chains[b] != [] ==> Placed(chains[b][0], b, entries, hash);
      }
      assert chains' == chains;
    } else if |entries'| == |entries| {
      SubsetOfSameSize(entries'.Keys, entries.Keys);
    }
  }

  lemma SubsetOfSameSize<X>(a: set<X>, b: set<X>)
    requires a <= b && |a| == |b|
    ensures a == b
  {
    assert |b| == |a| + |b - a| by {
      assert b == a + (b - a);
    }
  }

  /** `vec_push` on one bucket leaves the others as they are. */
  method PushBucket(buckets: seq<Vector>, ghost chains: Chains, ghost cells: set<object>, b: nat, tcb: Tcb, memory: bool)
    returns (ok: bool, ghost cells': set<object>)
    requires Wired(buckets, chains, cells) && b < |buckets|
    requires Holds(buckets, chains, cells, b)
    modifies buckets[b], buckets[b].data
    ensures Wired(buckets, if ok then chains[b := chains[b] + [tcb]] else chains, cells')
    ensures cells <= cells' && fresh(cells' - cells)
    ensures memory ==> ok
  {
    ok := buckets[b].Push(tcb, memory);
    cells' := cells + {buckets[b].data};
    ghost var chains' := if ok then chains[b := chains[b] + [tcb]] else chains;
    forall i | 0 <= i < |buckets|
      ensures Holds(buckets, chains', cells', i)
    {
      assert old(Holds(buckets, chains, cells, i)) && (i != b ==> old(Apart(buckets, cells, i, b)));
    }
    forall i, j | 0 <= i < |buckets| && 0 <= j < |buckets| && i != j
      ensures Apart(buckets, cells', i, j)
    {
      assert old(Apart(buckets, cells, i, j)) && old(Holds(buckets, chains, cells, i)) && old(Holds(buckets, chains, cells, j));
    }
  }

  /** The chains after deleting from bucket `b` the element at `at`, if there is one. */
  ghost function WithoutAt(chains: Chains, b: nat, at: nat): Chains
    requires b < |chains|
  {
    if at < |chains[b]| then chains[b := SwapPop(chains[b], at)] else chains
  }

  /** `vec_delete` on one bucket leaves the others as they are. */
  method DeleteBucket(buckets: seq<Vector>, ghost chains: Chains, ghost cells: set<object>, b: nat, tcb: Tcb, heap: Heap)
    returns (ghost at: nat)
    requires Wired(buckets, chains, cells) && b < |buckets| && tcb in heap.live && heap !in cells
    requires Holds(buckets, chains, cells, b)
    requires forall t :: t in chains[b] ==> t != null && t in heap.live
    modifies buckets[b], buckets[b].data, heap
    ensures at <= |chains[b]| && Wired(buckets, WithoutAt(chains, b, at), cells)
    ensures at < |chains[b]| ==> chains[b][at].id == tcb.id && heap.live == old(heap.live) - {chains[b][at]}
    ensures at == |chains[b]| ==> (forall t :: t in chains[b] ==> t.id != tcb.id) && heap.live == old(heap.live)
  {
    at := buckets[b].Delete(tcb, heap);
    ghost var chains' := WithoutAt(chains, b, at);
    forall i | 0 <= i < |buckets|
      ensures Holds(buckets, chains', cells, i)
    {
      assert old(Holds(buckets, chains, cells, i)) && (i != b ==> old(Apart(buckets, cells, i, b)));
    }
    forall i, j | 0 <= i < |buckets| && 0 <= j < |buckets| && i != j
      ensures Apart(buckets, cells, i, j)
    {
      assert old(Apart(buckets, cells, i, j));
    }
  }

  /** `vec_destroy` on every bucket frees exactly the blocks in the chains. */
  method DestroyBuckets(buckets: seq<Vector>, ghost chains: Chains, ghost cells: set<object>, heap: Heap)
    requires Wired(buckets, chains, cells) && heap !in cells
    requires forall b, k :: 0 <= b < |chains| && 0 <= k < |chains[b]| ==> chains[b][k] in heap.live
    requires forall b :: 0 <= b < |chains| ==> Distinct(chains[b])
    requires forall b, c, k, l :: 0 <= b < c < |chains| && 0 <= k < |chains[b]| && 0 <= l < |chains[c]| ==>
               chains[b][k] != chains[c][l]
    modifies buckets, heap
    ensures Bare(buckets, cells)
    ensures forall v :: v in buckets ==> v.data == null && v.size == 0 && v.capacity == 0
    ensures forall t :: t in heap.live <==> t in old(heap.live) && forall b :: 0 <= b < |chains| ==> t !in chains[b]
  {
    forall i | 0 <= i < |buckets|
      ensures buckets[i] in cells && buckets[i].Valid() && buckets[i].Items() == chains[i]
    {
      assert Holds(buckets, chains, cells, i);
    }
    forall i, j | 0 <= i < j < |buckets|
      ensures buckets[i] != buckets[j] && buckets[i].data != buckets[j].data
    {
      assert Apart(buckets, cells, i, j);
    }
    for i := 0 to |buckets|
      invariant forall j :: 0 <= j < i ==> buckets[j].data == null && buckets[j].size == 0 && buckets[j].capacity == 0
      invariant forall j :: i <= j < |buckets| ==> buckets[j].Valid() && buckets[j].Items() == chains[j]
      invariant forall t :: t in heap.live <==> t in old(heap.live) && forall b :: 0 <= b < i ==> t !in chains[b]
    {
      buckets[i].Destroy(heap);
    }
  }

  // ------------------------------------------------------------------ the table

  class Table {
    const hash: V.ConnId -> Bucket
    const heap: Heap
    const buckets: seq<Vector>
    var size: nat
    var ready: bool
    ghost var chains: Chains
    ghost var entries: Entries
    ghost var cells: set<object>

    ghost predicate Valid()
      reads this, heap, cells
    {
      && this !in cells && heap !in cells
      && |buckets| == HT_SIZE
      && AllLive(entries, heap.live, cells)
      && (if ready then Wired(buckets, chains, cells) && Indexed(chains, entries, hash, size)
          else Bare(buckets, cells) && entries == map[] && size == 0)
    }

    /** The finite map that the table stands for. */
    ghost function Model(): map<V.ConnId, V.Tcb>
      reads this, entries.Values
    {
      map id | id in entries :: entries[id].Value()
    }

    /** The static table before first use. */
    constructor ()
      ensures Valid() && fresh(heap) && fresh(cells) && !ready && entries == map[] && heap.live == {}
      ensures hash == HashId
    {
      hash := HashId;
      var h := new Heap();
      heap := h;
      size, ready, entries, chains := 0, false, map[], [];
      var vs: seq<Vector> := [];
      for i := 0 to HT_SIZE
        invariant |vs| == i && h.live == {}
        invariant forall v :: v in vs ==> fresh(v)
        invariant forall j, k :: 0 <= j < k < i ==> vs[j] != vs[k]
      {
        var v := new Vector();
        vs := vs + [v];
      }
      buckets := vs;
      cells := set v | v in vs;
    }

    /** `hash_init`; the allocation for bucket `failAt`, if there is one, fails. On a table that
        is set up already, the entries in the buckets before it are dropped, their blocks stay
        allocated, and after a failure `size` still counts them. */
    method Init(failAt: nat) returns (ok: bool)
      requires Valid()
      modifies this, heap, cells
      ensures fresh(cells - old(cells)) && heap.live == old(heap.live)
      ensures ok == (failAt >= 256) && ready == (old(ready) || ok)
      ensures entries == Surviving(old(entries), hash, failAt) && size == if ok then 0 else old(size)
      ensures Valid() <==> ok || entries == old(entries)
    {
      if ready {
        ok := InitReady(failAt);
        return;
      }
      ghost var cells';
      ok, cells' := InitBuckets(buckets, cells, failAt);
      if ok {
        cells, chains := cells', seq(HT_SIZE, _ => []);
        size, ready := 0, true;
        TotalSizeEmpty(chains);
      }
    }

    method InitReady(failAt: nat) returns (ok: bool)
      requires Valid() && ready
      modifies this, heap, cells
      ensures fresh(cells - old(cells)) && heap.live == old(heap.live)
      ensures ok == (failAt >= HT_SIZE) && ready
      ensures entries == Surviving(old(entries), hash, failAt) && size == if ok then 0 else old(size)
      ensures Valid() <==> ok || entries == old(entries)
    {
      ghost var cells';
      WiredIsBare(buckets, chains, cells);
      ok, cells' := InitAgain(buckets, chains, cells, failAt);
      TruncatedRefines(chains, entries, hash, failAt);
      TruncatedIndexed(chains, entries, hash, size, failAt);
      cells, chains, entries := cells', Truncated(chains, failAt), Surviving(entries, hash, failAt);
      if ok {
        size := 0;
        TotalSizeEmpty(chains);
      }
    }

    /** `hash_find`. */
    method Find(id: V.ConnId) returns (tcb: Tcb?)
      requires Valid()
      ensures tcb == if id in entries then entries[id] else null
    {
      if !ready {
        return null;
      }
      assert Holds(buckets, chains, cells, hash(id));
      ChainsLive(hash(id));
      tcb := buckets[hash(id)].Find(id, heap.live);
      if id in entries {
        ghost var k := Position(chains, entries, hash, id);
        assert chains[hash(id)][k].id == id;
      }
      if tcb != null {
        ghost var k :| 0 <= k < |chains[hash(id)]| && chains[hash(id)][k] == tcb;
        assert Placed(chains[hash(id)][k], hash(id), entries, hash);
      }
    }

    /** `hash_insert`. The table is set up on first use; when memory runs out for that or for
        growing the bucket, nothing is inserted. A second block for an identifier that is already
        there is stored beside the first, and the table no longer stands for a map. */
    method Insert(tcb: Tcb, failAt: nat, memory: bool) returns (ok: bool)
      requires Valid() && tcb in heap.live && tcb !in cells
      modifies this, heap, cells
      ensures fresh(cells - old(cells)) && heap.live == old(heap.live)
      ensures Valid() <==> !ok || tcb.id !in old(entries)
      ensures entries == if ok then WithNew(old(entries), tcb) else old(entries)
      ensures size == if ok then old(size) + 1 else old(size)
      ensures memory && (old(ready) || failAt >= HT_SIZE) ==> ok
    {
      if !ready {
        ok := Init(failAt);
        if !ok {
          return false;
        }
      }
      ok := PushReady(tcb, memory);
    }

    method PushReady(tcb: Tcb, memory: bool) returns (ok: bool)
      requires Valid() && ready && tcb in heap.live && tcb !in cells
      modifies this, cells
      ensures fresh(cells - old(cells))
      ensures Valid() <==> !ok || tcb.id !in old(entries)
      ensures entries == if ok then WithNew(old(entries), tcb) else old(entries)
      ensures size == if ok then old(size) + 1 else old(size)
      ensures memory ==> ok
    {
      ghost var was, had := chains, entries;
      ok := PushOnly(tcb, memory);
      if ok {
        PushIndexed(was, had, hash, size, tcb);
        size := size + 1;
      }
    }

    /** The bucket with the block, or as it was; `size` does not count it yet. */
    method PushOnly(tcb: Tcb, memory: bool) returns (ok: bool)
      requires Valid() && ready && tcb in heap.live && tcb !in cells
      modifies this`chains, this`entries, this`cells, cells
      ensures fresh(cells - old(cells)) && this !in cells && heap !in cells && |buckets| == HT_SIZE && |old(chains)| == HT_SIZE
      ensures AllLive(entries, heap.live, cells) && Wired(buckets, chains, cells) && Indexed(old(chains), old(entries), hash, size)
      ensures var b := hash(tcb.id);
              if ok then chains == old(chains)[b := old(chains)[b] + [tcb]] && entries == WithNew(old(entries), tcb)
              else chains == old(chains) && entries == old(entries)
      ensures memory ==> ok
    {
      var b := hash(tcb.id);
      ghost var cells';
      assert Holds(buckets, chains, cells, b);
      ok, cells' := PushBucket(buckets, chains, cells, b, tcb, memory);
      cells := cells';
      if ok {
        ghost var with := WithNew(entries, tcb);
        assert AllLive(with, heap.live, cells);
        chains, entries := chains[b := chains[b] + [tcb]], with;
      }
    }

    /** `hash_delete`. A block that is in the table is freed, and the unconditional decrement of
        `size` stays above zero; on a table that is not set up nothing happens. A block that is
        not in a table that is set up leaves `size` wrong, and so the table no longer valid. */
    method Delete(tcb: Tcb)
      requires Valid() && tcb in heap.live
      modifies this, heap, cells
      ensures cells == old(cells) && ready == old(ready)
      ensures Valid() <==> !ready || tcb.id in old(entries)
      ensures tcb.id in old(entries) ==>
                && entries == old(entries) - {tcb.id} && size == old(size) - 1
                && heap.live == old(heap.live) - {old(entries)[tcb.id]}
      ensures tcb.id !in old(entries) ==> entries == old(entries) && heap.live == old(heap.live)
      ensures !ready ==> size == old(size)
    {
      if !ready {
        return;
      }
      var b := hash(tcb.id);
      ChainsLive(b);
      assert Holds(buckets, chains, cells, b);
      ghost var at := DeleteBucket(buckets, chains, cells, b, tcb, heap);
      if at < |chains[b]| {
        DeleteIndexed(chains, entries, hash, size, tcb.id, at);
        entries := entries - {tcb.id};
      } else {
        NotThere(chains, entries, hash, tcb.id);
      }
      chains := WithoutAt(chains, b, at);
      size := if size == 0 then SIZE_MAX else size - 1;
    }

    /** `hash_destroy`: every block in the table is freed, and no other. */
    method Destroy()
      requires Valid()
      modifies this, heap, cells
      ensures Valid() && !ready && entries == map[] && cells == old(cells)
      ensures heap.live == old(heap.live) - old(entries).Values
    {
      if !ready {
        return;
      }
      ChainsAreEntries(chains, entries, hash, heap.live, cells);
      WiredIsBare(buckets, chains, cells);
      DestroyBuckets(buckets, chains, cells, heap);
      size, ready, entries := 0, false, map[];
    }

    lemma ChainsLive(b: Bucket)
      requires Valid() && ready
      ensures forall t :: t in chains[b] ==> t != null && t in heap.live
    {
      forall k | 0 <= k < |chains[b]|
        ensures chains[b][k] != null && chains[b][k] in heap.live
      {
        assert Placed(chains[b][k], b, entries, hash);
      }
    }
  }
}
