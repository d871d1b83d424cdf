/** The periodic health pass of HealthChecker.go: every known server is probed, its health
    flag is set to the result, and its pool membership is brought in line with it. The probe
    (an HTTP HEAD request in the source) is an input, one result per server. */
module HealthChecker {
  import opened ServerHeap

  /** The pool is in step with the probes: exactly the servers probed alive are members. */
  ghost predicate InStep(index: seq<int>, allServers: seq<nat>, probes: seq<bool>)
    requires |probes| == |allServers|
  {
    forall k :: 0 <= k < |allServers| ==>
      allServers[k] < |index| && (index[allServers[k]] != -1 <==> probes[k])
  }

  /** One turn of the loop for one server: record its health, add it when it is alive and
      absent, remove it when it is dead and present, and otherwise leave the pool alone. */
  method Reconcile(pool: ServerPool, id: nat, alive: bool)
    requires pool.Valid() && id < pool.table.Count()
    modifies pool, pool.table
    ensures pool.Valid()
    ensures pool.table.health == old(pool.table.health)[id := alive]
    ensures pool.table.names == old(pool.table.names) && pool.table.urls == old(pool.table.urls)
    ensures pool.table.activeConnections == old(pool.table.activeConnections)
    ensures pool.table.index[id] != -1 <==> alive
    ensures forall other :: 0 <= other < pool.table.Count() && other != id ==>
      (pool.table.index[other] == -1 <==> old(pool.table.index)[other] == -1)
    ensures alive && old(pool.table.index)[id] == -1 ==>
      multiset(pool.servers) == multiset(old(pool.servers)) + multiset{id}
    ensures !alive && old(pool.table.index)[id] != -1 ==>
      multiset(pool.servers) + multiset{id} == multiset(old(pool.servers))
    ensures (old(pool.table.index)[id] != -1 <==> alive) ==>
      pool.servers == old(pool.servers) && pool.table.index == old(pool.table.index)
  {
    pool.table.SetHealth(id, alive);
    if alive && pool.table.index[id] == -1 {
      pool.AddServer(id);
    } else if !alive && pool.table.index[id] != -1 {
      pool.RemoveServer(id);
    }
  }

  /** One full pass over allServers with the given probe results. Afterwards every server's
      health is its probe and it is a member exactly when it was probed alive; records outside
      allServers keep their health and membership, no count changes, and a pass over a pool
      already in step with the probes changes neither the heap nor any back-reference. */
  method HealthPass(pool: ServerPool, allServers: seq<nat>, probes: seq<bool>)
    requires pool.Valid() && |probes| == |allServers|
    requires forall k :: 0 <= k < |allServers| ==> allServers[k] < pool.table.Count()
    requires forall k, l :: 0 <= k < l < |allServers| ==> allServers[k] != allServers[l]
    modifies pool, pool.table
    ensures pool.Valid() && pool.table.Count() == old(pool.table.Count())
    ensures pool.table.names == old(pool.table.names) && pool.table.urls == old(pool.table.urls)
    ensures pool.table.activeConnections == old(pool.table.activeConnections)
    ensures forall k :: 0 <= k < |allServers| ==> pool.table.health[allServers[k]] == probes[k]
    ensures InStep(pool.table.index, allServers, probes)
    ensures forall id :: 0 <= id < pool.table.Count() && id !in allServers ==>
      pool.table.health[id] == old(pool.table.health)[id] &&
      (pool.table.index[id] == -1 <==> old(pool.table.index)[id] == -1)
    ensures old(InStep(pool.table.index, allServers, probes)) ==>
      pool.servers == old(pool.servers) && pool.table.index == old(pool.table.index)
    ensures (forall id :: id in old(pool.servers) ==> id in allServers) ==>
      forall id :: id in pool.servers ==> id in allServers
  {
    ghost var heap0, index0 := pool.servers, pool.table.index;
    var i := 0;
    while i < |allServers|
      invariant 0 <= i <= |allServers|
      invariant pool.Valid() && pool.table.Count() == old(pool.table.Count())
      invariant pool.table.names == old(pool.table.names) && pool.table.urls == old(pool.table.urls)
      invariant pool.table.activeConnections == old(pool.table.activeConnections)
      invariant forall k :: 0 <= k < i ==>
        pool.table.health[allServers[k]] == probes[k] &&
        (pool.table.index[allServers[k]] != -1 <==> probes[k])
      invariant forall id :: 0 <= id < pool.table.Count() && id !in allServers[..i] ==>
        pool.table.health[id] == old(pool.table.health)[id] &&
        (pool.table.index[id] == -1 <==> old(pool.table.index)[id] == -1)
      invariant old(InStep(pool.table.index, allServers, probes)) ==>
        pool.servers == old(pool.servers) && pool.table.index == old(pool.table.index)
    {
      assert allServers[..i + 1] == allServers[..i] + [allServers[i]];
      Reconcile(pool, allServers[i], probes[i]);
      i := i + 1;
    }
    assert allServers[..i] == allServers;
    if forall id :: id in heap0 ==> id in allServers {
      forall id | id in pool.servers
        ensures id in allServers
      {
        MemberIffIndexed(pool.servers, pool.table.index, id);
        if id !in allServers {
          MemberIffIndexed(heap0, index0, id);
        }
      }
    }
  }
}
