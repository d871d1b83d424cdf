/** The pool of routable backends (server_heap.go): a binary min-heap of records ordered by
    active connections, in which each record keeps its own slot as a back-reference. The heap
    slice holds records by their row in the ServerTable. The sift-up, sift-down, Fix and Remove
    of Go's container/heap are written out here, calling back into the slice's Swap, Push and
    Pop exactly as the library does. */
module ServerHeap {
  import opened Servers
  import opened HeapIndex

  /** Every slot names one of the first `rows` records. */
  ghost predicate InTable(heap: seq<nat>, rows: nat)
  {
    forall k :: 0 <= k < |heap| ==> heap[k] < rows
  }

  /** The connection counts the heap compares, slot by slot. */
  function Keys(heap: seq<nat>, counts: seq<int>): seq<int>
    requires InTable(heap, |counts|)
  {
    seq(|heap|, k requires 0 <= k < |heap| => counts[heap[k]])
  }

  /** The back-references: every member's `index` names its own slot (so no record sits in two
      slots), and every record whose `index` is not -1 is a member. */
  ghost predicate Linked(heap: seq<nat>, index: seq<int>)
  {
    (forall k :: 0 <= k < |heap| ==> heap[k] < |index| && index[heap[k]] == k) &&
    (forall id :: 0 <= id < |index| && index[id] != -1 ==>
       0 <= index[id] < |heap| && heap[index[id]] == id)
  }

  /** The pool invariant: back-references and min-heap order on the connection counts. */
  ghost predicate PoolInvariant(heap: seq<nat>, counts: seq<int>, index: seq<int>)
  {
    |counts| == |index| && Linked(heap, index) && IsMinHeap(Keys(heap, counts))
  }

  /** With the back-references in place, a record is a member exactly when its `index` is
      not -1. */
  lemma MemberIffIndexed(heap: seq<nat>, index: seq<int>, id: nat)
    requires Linked(heap, index) && id < |index|
    ensures id in heap <==> index[id] != -1
  {
  }

  /** Two linked states whose heaps hold the same records, except possibly s, agree on which
      records other than s are members. */
  lemma MembersAgreeExcept(heap: seq<nat>, index: seq<int>, heap': seq<nat>, index': seq<int>, s: nat)
    requires Linked(heap, index) && Linked(heap', index') && |index'| == |index|
    requires forall x :: x != s ==> multiset(heap')[x] == multiset(heap)[x]
    ensures forall id :: 0 <= id < |index| && id != s ==> (index'[id] == -1 <==> index[id] == -1)
  {
    forall id | 0 <= id < |index| && id != s
      ensures index'[id] == -1 <==> index[id] == -1
    {
      MemberIffIndexed(heap, index, id);
      MemberIffIndexed(heap', index', id);
      assert id in heap <==> multiset(heap)[id] > 0;
      assert id in heap' <==> multiset(heap')[id] > 0;
    }
  }

  /** Two linked states whose heaps hold the same records agree on every membership. */
  lemma SameMembers(heap: seq<nat>, index: seq<int>, heap': seq<nat>, index': seq<int>)
    requires Linked(heap, index) && Linked(heap', index') && |index'| == |index|
    requires multiset(heap') == multiset(heap)
    ensures forall id :: 0 <= id < |index| ==> (index'[id] == -1 <==> index[id] == -1)
  {
    forall id | 0 <= id < |index|
      ensures index'[id] == -1 <==> index[id] == -1
    {
      MemberIffIndexed(heap, index, id);
      MemberIffIndexed(heap', index', id);
      assert id in heap <==> id in multiset(heap);
    }
  }

  /** The least-loaded member is the one at the root. */
  lemma RootIsLeastLoaded(heap: seq<nat>, counts: seq<int>, index: seq<int>)
    requires PoolInvariant(heap, counts, index) && |heap| > 0
    ensures forall k :: 0 <= k < |heap| ==> counts[heap[0]] <= counts[heap[k]]
  {
    forall k | 0 <= k < |heap|
      ensures counts[heap[0]] <= counts[heap[k]]
    {
      RootIsMin(Keys(heap, counts), k);
    }
  }

  /** newServer's records start idle and outside the pool, so creating one keeps the
      invariant. */
  lemma NewRecordKeepsPool(heap: seq<nat>, counts: seq<int>, index: seq<int>)
    requires PoolInvariant(heap, counts, index)
    ensures PoolInvariant(heap, counts + [0], index + [-1])
  {
  }

  /** Swap's effect on the back-references: they stay right and only slots move. */
  lemma SwapKeepsLinks(heap: seq<nat>, index: seq<int>, i: nat, j: nat)
    requires Linked(heap, index) && i < |heap| && j < |heap|
    ensures var heap' := heap[i := heap[j]][j := heap[i]];
      Linked(heap', index[heap'[i] := i][heap'[j] := j]) && multiset(heap') == multiset(heap)
  {
  }

  /** Push's effect on the back-references: an absent record takes the new last slot. */
  lemma AppendKeepsLinks(heap: seq<nat>, index: seq<int>, x: nat)
    requires Linked(heap, index) && x < |index| && index[x] == -1
    ensures Linked(heap + [x], index[x := |heap|])
  {
  }

  /** Pop's effect on the back-references: the record in the last slot leaves, marked -1. */
  lemma DropLastKeepsLinks(heap: seq<nat>, index: seq<int>)
    requires Linked(heap, index) && |heap| > 0
    ensures Linked(heap[..|heap| - 1], index[heap[|heap| - 1] := -1])
  {
  }

  /** Dropping the last slot of a heap ordered on the slots before it leaves a min-heap. */
  lemma DropLastKeepsHeap(heap: seq<nat>, counts: seq<int>)
    requires InTable(heap, |counts|) && |heap| > 0
    requires HeapBelow(Keys(heap, counts), |heap| - 1)
    ensures IsMinHeap(Keys(heap[..|heap| - 1], counts))
  {
  }

  /** Changing one record's count leaves, at worst, a sift-down problem at that record's slot;
      a non-member's count is not compared at all. */
  lemma RecountKeepsHeap(heap: seq<nat>, counts: seq<int>, index: seq<int>, s: nat, c: int)
    requires PoolInvariant(heap, counts, index) && s < |counts|
    ensures index[s] == -1 ==> PoolInvariant(heap, counts[s := c], index)
    ensures index[s] != -1 ==> 0 <= index[s] < |heap| &&
                               ReadyDown(Keys(heap, counts[s := c]), |heap|, index[s])
  {
    if index[s] != -1 {
      var i := index[s];
      assert Keys(heap, counts[s := c]) == Keys(heap, counts)[i := c];
      ChangedKey(Keys(heap, counts), Keys(heap, counts[s := c]), i);
    }
  }

  class ServerPool {
    /** The heap array (the source's ServerHeap slice), as rows of `table`. */
    var servers: seq<nat>
    /** The records the members point to. */
    const table: ServerTable

    /** The table is well formed and the back-references are right; holds at every call
        boundary, also while heap order is being restored. */
    ghost predicate Consistent()
      reads this, table
    {
      table.Valid() && Linked(servers, table.index)
    }

    ghost predicate Valid()
      reads this, table
    {
      table.Valid() && PoolInvariant(servers, table.activeConnections, table.index)
    }

    /** The empty pool of the program's start, over records that are all outside it. */
    constructor (table: ServerTable)
      requires table.Valid()
      requires forall id :: 0 <= id < |table.index| ==> table.index[id] == -1
      ensures this.table == table && servers == [] && Valid()
    {
      this.table := table;
      servers := [];
    }

    function Len(): nat
      reads this
    {
      |servers|
    }

    /** The heap's ordering: fewer active connections comes first. */
    predicate Less(i: nat, j: nat)
      requires i < |servers| && j < |servers| && InTable(servers, |table.activeConnections|)
      reads this, table
    {
      table.activeConnections[servers[i]] < table.activeConnections[servers[j]]
    }

    /** In a valid pool no member is `Less` than its parent, and none is `Less` than the
        member at the root: the slice is a min-heap under the source's own comparison. */
    lemma OrderedByLess()
      requires Valid()
      ensures forall k :: 0 < k < |servers| ==> !Less(k, Parent(k)) && !Less(k, 0)
    {
      if |servers| > 0 {
        RootIsLeastLoaded(servers, table.activeConnections, table.index);
      }
    }

    /** Exchanges two slots and rewrites both back-references. */
    method Swap(i: nat, j: nat)
      requires i < |servers| && j < |servers| && Consistent()
      modifies this, table
      ensures servers == old(servers)[i := old(servers)[j]][j := old(servers)[i]]
      ensures table.index == old(table.index)[servers[i] := i][servers[j] := j]
      ensures Consistent() && table.OnlyIndexChanged()
      ensures multiset(servers) == multiset(old(servers))
      ensures Keys(servers, table.activeConnections) ==
              Swapped(old(Keys(servers, table.activeConnections)), i, j)
    {
      SwapKeepsLinks(servers, table.index, i, j);
      servers := servers[i := servers[j]][j := servers[i]];
      table.index := table.index[servers[i] := i];
      table.index := table.index[servers[j] := j];
    }

    /** Appends an absent record and gives it the new last slot. */
    method Push(x: nat)
      requires Consistent() && x < table.Count() && table.index[x] == -1
      modifies this, table
      ensures servers == old(servers) + [x]
      ensures table.index == old(table.index)[x := |old(servers)|]
      ensures Consistent() && table.OnlyIndexChanged()
    {
      AppendKeepsLinks(servers, table.index, x);
      var n := Len();
      table.index := table.index[x := n];
      servers := servers + [x];
    }

    /** Takes the record in the last slot out of the heap and marks it absent. */
    method Pop() returns (item: nat)
      requires Consistent() && |servers| > 0
      modifies this, table
      ensures Consistent() && table.OnlyIndexChanged()
      ensures old(servers) == servers + [item] && item < table.Count()
      ensures table.index == old(table.index)[item := -1]
    {
      DropLastKeepsLinks(servers, table.index);
      var n := Len();
      item := servers[n - 1];
      table.index := table.index[item := -1];
      servers := servers[..n - 1];
    }

    /** container/heap's sift-up from slot j0. It only moves records toward the root, so the
        slots from the ghost bound n on are never touched. */
    method Up(j0: nat, ghost n: nat)
      requires j0 < n <= |servers| && Consistent()
      requires ReadyUp(Keys(servers, table.activeConnections), n, j0)
      modifies this, table
      ensures |servers| == old(|servers|) && servers[n..] == old(servers[n..])
      ensures Consistent() && table.OnlyIndexChanged()
      ensures HeapBelow(Keys(servers, table.activeConnections), n)
      ensures multiset(servers) == multiset(old(servers))
    {
      var j: nat := j0;
      while true
        invariant j < n <= |servers| == old(|servers|) && servers[n..] == old(servers[n..])
        invariant Consistent() && table.OnlyIndexChanged()
        invariant ReadyUp(Keys(servers, table.activeConnections), n, j)
        invariant multiset(servers) == multiset(old(servers))
        decreases j
      {
        var i := Parent(j);
        if i == j || !Less(j, i) {
          UpDone(Keys(servers, table.activeConnections), n, j);
          break;
        }
        UpStep(Keys(servers, table.activeConnections), n, j);
        Swap(i, j);
        j := i;
      }
    }

    /** The child of slot i that sift-down compares against: the right child when it is
        strictly less loaded than the left, else the left. */
    method SmallerChild(i: nat, n: nat) returns (j: nat)
      requires 2 * i + 1 < n <= |servers| && InTable(servers, |table.activeConnections|)
      ensures i < j < n && Parent(j) == i
      ensures forall c :: 0 < c < n && Parent(c) == i ==>
        Keys(servers, table.activeConnections)[j] <= Keys(servers, table.activeConnections)[c]
      ensures j == 2 * i + 2 ==>
        Keys(servers, table.activeConnections)[j] < Keys(servers, table.activeConnections)[j - 1]
    {
      ghost var keys := Keys(servers, table.activeConnections);
      var j1 := 2 * i + 1;
      j := j1;
      if j1 + 1 < n && Less(j1 + 1, j1) {
        j := j1 + 1;
        assert keys[j] < keys[j1];
        SmallerChildIsLeast(keys, n, i, j);
      } else {
        assert j1 + 1 < n ==> keys[j1] <= keys[j1 + 1];
        SmallerChildIsLeast(keys, n, i, j);
      }
    }

    /** container/heap's sift-down from slot i0 within the slots below n; reports whether
        anything moved. */
    method Down(i0: nat, n: nat) returns (moved: bool)
      requires i0 < n <= |servers| && Consistent()
      requires ReadyDown(Keys(servers, table.activeConnections), n, i0)
      modifies this, table
      ensures |servers| == old(|servers|) && servers[n..] == old(servers[n..])
      ensures Consistent() && table.OnlyIndexChanged()
      ensures moved ==> HeapBelow(Keys(servers, table.activeConnections), n)
      ensures !moved ==> servers == old(servers) && table.index == old(table.index) &&
                         ChildrenAbove(Keys(servers, table.activeConnections), n, i0)
      ensures multiset(servers) == multiset(old(servers))
    {
      var i := i0;
      while true
        invariant i0 <= i < n <= |servers| == old(|servers|) && servers[n..] == old(servers[n..])
        invariant Consistent() && table.OnlyIndexChanged()
        invariant ReadyDown(Keys(servers, table.activeConnections), n, i)
        invariant i > i0 ==>
          Keys(servers, table.activeConnections)[Parent(i)] <= Keys(servers, table.activeConnections)[i]
        invariant i == i0 ==> servers == old(servers) && table.index == old(table.index)
        invariant multiset(servers) == multiset(old(servers))
        decreases n - i
      {
        var j1 := 2 * i + 1;
        if j1 >= n {
          LeafSlot(Keys(servers, table.activeConnections), n, i);
          break;
        }
        var j := SmallerChild(i, n);
        if !Less(j, i) {
          SettledSlot(Keys(servers, table.activeConnections), n, i, j);
          break;
        }
        DownStep(Keys(servers, table.activeConnections), n, i, j);
        Swap(i, j);
        i := j;
      }
      moved := i > i0;
      if moved {
        DownDone(Keys(servers, table.activeConnections), n, i);
      }
    }

    /** The step container/heap's Fix and Remove share: sift slot i down within the slots
        below n and, if it did not move, sift it up. */
    method Sift(i: nat, n: nat)
      requires i < n <= |servers| && Consistent()
      requires ReadyDown(Keys(servers, table.activeConnections), n, i)
      modifies this, table
      ensures |servers| == old(|servers|) && servers[n..] == old(servers[n..])
      ensures Consistent() && table.OnlyIndexChanged()
      ensures HeapBelow(Keys(servers, table.activeConnections), n)
      ensures multiset(servers) == multiset(old(servers))
    {
      var moved := Down(i, n);
      if !moved {
        DownThenUp(Keys(servers, table.activeConnections), n, i);
        Up(i, n);
      }
    }

    /** container/heap's Fix: re-establishes heap order after the key at slot i changed. */
    method Fix(i: nat)
      requires i < |servers| && Consistent()
      requires ReadyDown(Keys(servers, table.activeConnections), |servers|, i)
      modifies this, table
      ensures Valid() && table.OnlyIndexChanged()
      ensures multiset(servers) == multiset(old(servers))
    {
      Sift(i, Len());
    }

    /** The first half of container/heap's Remove: moves the record at slot i to the last slot
        and restores heap order on the slots before it. */
    method MoveToLast(i: nat)
      requires i < |servers| && Valid()
      modifies this, table
      ensures |servers| == old(|servers|) && servers[|servers| - 1] == old(servers[i])
      ensures Consistent() && table.OnlyIndexChanged()
      ensures HeapBelow(Keys(servers, table.activeConnections), |servers| - 1)
      ensures multiset(servers) == multiset(old(servers))
    {
      var n := Len() - 1;
      if n != i {
        LastIntoSlot(Keys(servers, table.activeConnections), i);
        Swap(i, n);
        Sift(i, n);
      }
    }

    /** container/heap's Remove: after MoveToLast, pops the last slot, which now holds the
        record from slot i. */
    method Remove(i: nat) returns (item: nat)
      requires i < |servers| && Valid()
      modifies this, table
      ensures Valid() && table.OnlyIndexChanged()
      ensures item == old(servers[i]) && item < table.Count() && table.index[item] == -1
      ensures multiset(servers) + multiset{item} == multiset(old(servers))
    {
      MoveToLast(i);
      DropLastKeepsHeap(servers, table.activeConnections);
      item := Pop();
    }

    /** Inserts an absent record: container/heap's Push appends it and sifts it up. */
    method AddServer(s: nat)
      requires Valid() && s < table.Count() && table.index[s] == -1
      modifies this, table
      ensures Valid() && table.OnlyIndexChanged()
      ensures multiset(servers) == multiset(old(servers)) + multiset{s}
      ensures 0 <= table.index[s] < |servers| && servers[table.index[s]] == s
      ensures forall id :: 0 <= id < table.Count() && id != s ==>
        (table.index[id] == -1 <==> old(table.index)[id] == -1)
    {
      ghost var heap0, index0 := servers, table.index;
      AppendedKey(Keys(servers, table.activeConnections), table.activeConnections[s]);
      assert Keys(servers + [s], table.activeConnections) ==
             Keys(servers, table.activeConnections) + [table.activeConnections[s]];
      Push(s);
      Up(Len() - 1, Len());
      assert s in multiset(servers);
      MemberIffIndexed(servers, table.index, s);
      MembersAgreeExcept(heap0, index0, servers, table.index, s);
    }

    /** Peeks at the least-loaded member, or None when the pool is empty; changes nothing. */
    method GetNextServer() returns (best: Option<nat>)
      requires Valid()
      ensures best.None? <==> |servers| == 0
      ensures best.Some? ==> best.value == servers[0] && best.value < table.Count()
      ensures best.Some? ==> forall k :: 0 <= k < |servers| ==>
        table.activeConnections[best.value] <= table.activeConnections[servers[k]]
    {
      if Len() == 0 {
        return None;
      }
      RootIsLeastLoaded(servers, table.activeConnections, table.index);
      best := Some(servers[0]);
    }

    /** One more connection on s; a member is then re-sifted from its slot. */
    method IncrementActive(s: nat)
      requires Valid() && s < table.Count()
      modifies this, table
      ensures Valid()
      ensures table.activeConnections == old(table.activeConnections)[s := old(table.activeConnections)[s] + 1]
      ensures table.names == old(table.names) && table.urls == old(table.urls)
      ensures table.health == old(table.health)
      ensures multiset(servers) == multiset(old(servers))
      ensures old(table.index)[s] == -1 ==> servers == old(servers) && table.index == old(table.index)
      ensures forall id :: 0 <= id < table.Count() ==>
        (table.index[id] == -1 <==> old(table.index)[id] == -1)
    {
      ghost var heap0, index0 := servers, table.index;
      RecountKeepsHeap(servers, table.activeConnections, table.index, s, table.activeConnections[s] + 1);
      table.activeConnections := table.activeConnections[s := table.activeConnections[s] + 1];
      if table.index[s] != -1 {
        Fix(table.index[s]);
        SameMembers(heap0, index0, servers, table.index);
      }
    }

    /** One connection fewer on s, with no floor at zero; a member is then re-sifted. */
    method DecrementActive(s: nat)
      requires Valid() && s < table.Count()
      modifies this, table
      ensures Valid()
      ensures table.activeConnections == old(table.activeConnections)[s := old(table.activeConnections)[s] - 1]
      ensures table.names == old(table.names) && table.urls == old(table.urls)
      ensures table.health == old(table.health)
      ensures multiset(servers) == multiset(old(servers))
      ensures old(table.index)[s] == -1 ==> servers == old(servers) && table.index == old(table.index)
      ensures forall id :: 0 <= id < table.Count() ==>
        (table.index[id] == -1 <==> old(table.index)[id] == -1)
    {
      ghost var heap0, index0 := servers, table.index;
      RecountKeepsHeap(servers, table.activeConnections, table.index, s, table.activeConnections[s] - 1);
      table.activeConnections := table.activeConnections[s := table.activeConnections[s] - 1];
      if table.index[s] != -1 {
        Fix(table.index[s]);
        SameMembers(heap0, index0, servers, table.index);
      }
    }

    /** Takes a member out of the pool and marks it absent; on an absent record it does nothing. */
    method RemoveServer(s: nat)
      requires Valid() && s < table.Count()
      modifies this, table
      ensures Valid() && table.OnlyIndexChanged()
      ensures table.index[s] == -1 && s !in servers
      ensures old(table.index)[s] == -1 ==> servers == old(servers) && table.index == old(table.index)
      ensures old(table.index)[s] != -1 ==> multiset(servers) + multiset{s} == multiset(old(servers))
      ensures forall id :: 0 <= id < table.Count() && id != s ==>
        (table.index[id] == -1 <==> old(table.index)[id] == -1)
    {
      ghost var heap0, index0 := servers, table.index;
      if table.index[s] != -1 {
        var removed := Remove(table.index[s]);
        table.index := table.index[s := -1];
        MembersAgreeExcept(heap0, index0, servers, table.index, s);
      }
      MemberIffIndexed(servers, table.index, s);
    }
  }
}
