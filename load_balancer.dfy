/** The request path of LoadBalancer.go as a client of the pool: pick the least-loaded member,
    count the request on it while it is proxied, and count it off again afterwards. The proxy
    call itself is not modelled; whether it returns normally is an input. */
module LoadBalancer {
  import opened Servers
  import opened ServerHeap

  datatype Outcome = ServiceUnavailable | Forwarded(target: nat)

  /** ForwardRequest as written: the decrement is an ordinary statement after the proxy call,
      so it runs only when that call returns. `proxyReturns == false` stands for the proxy
      panicking (the panic is recovered by the HTTP server, outside this handler). A request is
      refused exactly when the pool is empty; otherwise it goes to the member at the root, which
      is no more loaded than any other member. The count comes back only if the proxy returned;
      after an aborted forward the target keeps one connection too many. */
  method ForwardRequest(pool: ServerPool, proxyReturns: bool) returns (r: Outcome)
    requires pool.Valid()
    modifies pool, pool.table
    ensures pool.Valid()
    ensures r.ServiceUnavailable? <==> |old(pool.servers)| == 0
    ensures r.ServiceUnavailable? ==> pool.servers == old(pool.servers) &&
                                      pool.table.index == old(pool.table.index) &&
                                      pool.table.activeConnections == old(pool.table.activeConnections)
    ensures r.Forwarded? ==> r.target == old(pool.servers)[0] && r.target < pool.table.Count()
    ensures r.Forwarded? ==> forall k :: 0 <= k < |old(pool.servers)| ==>
      old(pool.table.activeConnections)[r.target] <= old(pool.table.activeConnections)[old(pool.servers)[k]]
    ensures r.Forwarded? && proxyReturns ==>
      pool.table.activeConnections == old(pool.table.activeConnections)
    ensures r.Forwarded? && !proxyReturns ==>
      pool.table.activeConnections ==
        old(pool.table.activeConnections)[r.target := old(pool.table.activeConnections)[r.target] + 1]
    ensures pool.table.health == old(pool.table.health)
    ensures pool.table.names == old(pool.table.names) && pool.table.urls == old(pool.table.urls)
    ensures multiset(pool.servers) == multiset(old(pool.servers))
  {
    var target := pool.GetNextServer();
    if target.None? {
      return ServiceUnavailable;
    }
    pool.IncrementActive(target.value);
    if proxyReturns {
      pool.DecrementActive(target.value);
    }
    r := Forwarded(target.value);
  }

  /** One idle server in the pool and one forward whose proxy aborts: the server is left
      counting a connection that no longer exists. */
  method AbortedForwardLeaks() returns (leaked: int)
    ensures leaked == 1
  {
    var table := new ServerTable();
    var id := table.NewServer("backend", "http://localhost:8081");
    var pool := new ServerPool(table);
    pool.AddServer(id);
    assert |pool.servers| == |multiset(pool.servers)| == 1;
    var r := ForwardRequest(pool, false);
    leaked := table.GetActive(id);
  }

  /** ForwardRequest with the decrement made unconditional, as a deferred call would make it:
      whether or not the proxy returns, every count is back to its prior value afterwards. */
  method ForwardRequestReleased(pool: ServerPool, proxyReturns: bool) returns (r: Outcome)
    requires pool.Valid()
    modifies pool, pool.table
    ensures pool.Valid()
    ensures r.ServiceUnavailable? <==> |old(pool.servers)| == 0
    ensures r.ServiceUnavailable? ==> pool.servers == old(pool.servers) &&
                                      pool.table.index == old(pool.table.index)
    ensures r.Forwarded? ==> r.target == old(pool.servers)[0] && r.target < pool.table.Count()
    ensures r.Forwarded? ==> forall k :: 0 <= k < |old(pool.servers)| ==>
      old(pool.table.activeConnections)[r.target] <= old(pool.table.activeConnections)[old(pool.servers)[k]]
    ensures pool.table.activeConnections == old(pool.table.activeConnections)
    ensures pool.table.health == old(pool.table.health)
    ensures pool.table.names == old(pool.table.names) && pool.table.urls == old(pool.table.urls)
    ensures multiset(pool.servers) == multiset(old(pool.servers))
  {
    var target := pool.GetNextServer();
    if target.None? {
      return ServiceUnavailable;
    }
    pool.IncrementActive(target.value);
    // The proxy call runs here; the release below runs on its normal return and on a panic alike.
    pool.DecrementActive(target.value);
    r := Forwarded(target.value);
  }
}
