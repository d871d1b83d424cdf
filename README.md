# Least-connections load balancer: pool, records and health pass

This project models the routing core of a small HTTP load balancer written in Go and proves
properties of that model in Dafny.

The balancer keeps every configured backend in a list of `Server` records. A record holds
the backend's name and address, a health flag, a count of active connections and a heap slot.
The routable backends sit in a `ServerPool`, a binary min-heap ordered by active connections.
Every member's `Index` field is its own slot in the heap, and a record outside the pool has
`Index == -1`. A request goes to the root of the heap. Its counter is raised while the request
is proxied, and lowered afterwards if the proxy call returns normally (see "## Findings"). Each
change of a count re-sifts the member from its slot.
A periodic health pass probes every backend, stores the result in its health flag, adds
recovered backends to the pool and removes failed ones.

Files:

- `servers.dfy` (module `Servers`): the `Server` record of `main.go` and the memory holding
  every record. Records are stored by field in a `ServerTable`: one sequence per field, and
  row `id` of each sequence is one record. A Go `*Server` becomes its row number, so the pool
  and the list of all servers share records the way the pointers do. The module has
  `newServer`, `CheckHealth`, `SetHealth` and `GetActive`.
- `heap_index.dfy` (module `HeapIndex`): the implicit binary tree of Go's `container/heap`.
  The parent of slot j is `(j - 1) / 2` with Go's truncating division, so the root is its own
  parent. The module also holds the order facts that sift-up and sift-down rely on, all stated
  over a sequence of keys.
- `server_heap.dfy` (module `ServerHeap`): the `ServerHeap` slice (`Len`, `Less`, `Swap`,
  `Push`, `Pop`) and the `ServerPool` operations. `container/heap` comes from Go's standard
  library, not from this repository. Its `Push`, `Fix` and `Remove`, with their sift-up
  (`Up`) and sift-down (`Down`) loops, are written out as methods that call back into
  `Swap`, `Push` and `Pop` the way the library does.
- `health_checker.dfy` (module `HealthChecker`): the loop body of the health pass
  (`Reconcile`) and the whole pass (`HealthPass`). The probe results come in as one boolean
  per server.
- `load_balancer.dfy` (module `LoadBalancer`): `ForwardRequest`, a client of the pool that
  picks the least-loaded member, increments its count and, if the proxy call returns,
  decrements it again. It also holds `ForwardRequestReleased`, the same handler with the
  decrement made unconditional.

The pool invariant (`ServerHeap.PoolInvariant`) has three parts:

- every slot k holds a record whose `index` is k;
- every record whose `index` is not -1 sits in the slot it names;
- the connection counts, read in slot order, form a min-heap.

`Valid()` is this invariant over the live table. Every public pool operation requires it and
re-establishes it. `Consistent()` is the back-reference half alone, which also holds in the
middle of a sift.

## Model

| member | source | states |
|---|---|---|
| Servers.ServerTable.NewServer | main.go:22-32 | a new record is appended: name and URL as given, healthy, zero active connections, `index == -1` (outside the pool); earlier records are unchanged |
| Servers.ServerTable.SetHealth | main.go:34-44 | only the record's health flag changes, to the given value; `CheckHealth` then returns it, and the count and the heap slot stay as they were |
| HeapIndex.Parent | server_heap.go:53 | the parent slot `(j - 1) / 2` with truncating division: the root maps to itself, and every other slot is the left or right child of a strictly smaller slot |
| HeapIndex.UpStep | server_heap.go:53 | one sift-up swap of a key smaller than its parent's keeps the heap order on every edge except the one into the parent slot |
| HeapIndex.UpDone | server_heap.go:53 | when sift-up stops (at the root or at a parent that is not larger), the keys below the bound are a min-heap |
| HeapIndex.DownStep | server_heap.go:75 | one sift-down swap with the smaller child keeps the order on every edge not touching the child slot, and the moved-up key is no larger than the moved-down one |
| HeapIndex.SmallerChildIsLeast | server_heap.go:75 | the child sift-down picks (the right child only when it is strictly smaller) is no larger than any child of the slot |
| HeapIndex.LeafSlot | server_heap.go:75 | a slot with no children inside the bound, where sift-down stops, is no larger than its children |
| HeapIndex.SettledSlot | server_heap.go:75 | a slot no larger than its smallest child, where sift-down stops, is no larger than any of its children |
| HeapIndex.DownDone | server_heap.go:75 | when sift-down stops after moving, the keys below the bound are a min-heap |
| HeapIndex.DownThenUp | server_heap.go:75 | when sift-down does not move anything, the rest is a sift-up problem at the same slot |
| HeapIndex.ChangedKey | server_heap.go:72-75 | changing one key of a min-heap leaves heap order everywhere except on the edges at that slot |
| HeapIndex.LastIntoSlot | server_heap.go:96 | moving the last key into slot i leaves a sift-down problem at i on the heap without its last slot |
| HeapIndex.AppendedKey | server_heap.go:53 | appending a key to a min-heap leaves a sift-up problem at the new last slot |
| HeapIndex.AncestorBound | server_heap.go:63-64 | in a min-heap no key is smaller than the key of any of its ancestors |
| HeapIndex.RootIsAncestor | server_heap.go:63-64 | the root is an ancestor of every slot |
| HeapIndex.RootIsMin | server_heap.go:63-64 | the root of a min-heap holds the least key |
| ServerHeap.ServerPool.OrderedByLess | server_heap.go:13-16 | in a valid pool no member is `Less` than its parent slot's member, and none is `Less` than the member at the root: the slice is a min-heap under the source's own comparison |
| ServerHeap.MemberIffIndexed | server_heap.go:94-95 | with the back-references in place, a record is in the heap exactly when its `index` is not -1 |
| ServerHeap.SameMembers | server_heap.go:74-75 | two linked states whose heaps hold the same records agree on every record's membership |
| ServerHeap.MembersAgreeExcept | server_heap.go:94-97 | two linked states whose heaps differ at most in one record agree on the membership of every other record |
| ServerHeap.RootIsLeastLoaded | server_heap.go:63-64 | in a valid pool the member at slot 0 has no more active connections than any member |
| ServerHeap.NewRecordKeepsPool | main.go:22-32 | adding a record as `newServer` creates it (idle, `index == -1`) keeps the pool invariant |
| ServerHeap.SwapKeepsLinks | server_heap.go:18-22 | exchanging two slots and rewriting both records' `index` keeps every back-reference right and keeps the same records in the heap |
| ServerHeap.AppendKeepsLinks | server_heap.go:24-29 | appending an absent record with `index` set to the old length keeps every back-reference right |
| ServerHeap.DropLastKeepsLinks | server_heap.go:31-39 | dropping the last slot and setting its record's `index` to -1 keeps every back-reference right |
| ServerHeap.DropLastKeepsHeap | server_heap.go:96 | when the slots before the last are in heap order, the heap without its last slot is a min-heap |
| ServerHeap.RecountKeepsHeap | server_heap.go:72-76 | changing one record's count keeps the invariant outright when the record is absent; for a member it leaves a sift-down problem at its slot |
| ServerHeap.ServerPool.constructor | LoadBalancer.go:19 | the pool starts empty and valid over records that are all outside it |
| ServerHeap.ServerPool.Swap | server_heap.go:18-22 | the two slots trade records and both records' `index` name their new slots; the back-references stay right, the same records remain, and the compared keys trade places |
| ServerHeap.ServerPool.Push | server_heap.go:24-29 | an absent record is appended with `index` equal to the old length, and nothing else changes |
| ServerHeap.ServerPool.Pop | server_heap.go:31-39 | the last slot is removed and returned, its record's `index` becomes -1, and nothing else changes |
| ServerHeap.ServerPool.Up | server_heap.go:53 | sift-up from a slot turns a heap broken only on the edge into that slot into a min-heap below the bound, by swaps alone and without touching slots from the bound on |
| ServerHeap.ServerPool.SmallerChild | server_heap.go:75 | returns the child sift-down compares with: a child of the slot inside the bound, no more loaded than its sibling, and the right child only when strictly less loaded |
| ServerHeap.ServerPool.Down | server_heap.go:75 | sift-down from a slot either leaves the heap untouched (and the slot no larger than its children) or yields a min-heap below the bound, by swaps alone |
| ServerHeap.ServerPool.Sift | server_heap.go:75 | sift-down and, if nothing moved, sift-up, restores heap order below the bound by swaps alone |
| ServerHeap.ServerPool.Fix | server_heap.go:73-76 | after one member's count changed, the pool is valid again with the same records |
| ServerHeap.ServerPool.MoveToLast | server_heap.go:96 | the record from slot i ends up in the last slot, and the slots before it are in heap order |
| ServerHeap.ServerPool.Remove | server_heap.go:96 | removes and returns the record at slot i, marks it `index == -1`, keeps every other record in the pool, and leaves the pool valid |
| ServerHeap.ServerPool.AddServer | server_heap.go:50-54 | an absent record becomes a member at the slot its `index` names; the pool grows by exactly that record, every other record keeps its membership, and the pool stays valid |
| ServerHeap.ServerPool.GetNextServer | server_heap.go:56-65 | returns nil exactly when the pool is empty, and otherwise the record at slot 0, whose count is at most every member's; nothing changes |
| ServerHeap.ServerPool.IncrementActive | server_heap.go:67-77 | the record's count goes up by exactly one and no other count changes; members are only reordered, nobody's membership changes, and an absent record leaves the heap untouched |
| ServerHeap.ServerPool.DecrementActive | server_heap.go:79-89 | the record's count goes down by exactly one, with no floor, and no other count changes; members are only reordered, nobody's membership changes, and an absent record leaves the heap untouched |
| ServerHeap.ServerPool.RemoveServer | server_heap.go:90-99 | afterwards the record is absent with `index == -1`; a member leaves and every other record keeps its membership; on an absent record the heap and every `index` stay as they were, so a second call changes nothing |
| HealthChecker.Reconcile | HealthChecker.go:14-23 | the health flag becomes the probe result and membership follows it: alive and absent is inserted, dead and present is removed, otherwise the heap is untouched; no count changes and no other record's membership changes |
| HealthChecker.HealthPass | HealthChecker.go:13-24 | after the pass each listed server's health is its probe and it is a member exactly when probed alive; unlisted records keep health and membership; no count changes; a pool of listed servers stays one; a pass whose probes match current membership changes nothing |
| LoadBalancer.ForwardRequest | LoadBalancer.go:48-70 | a request is refused exactly when the pool is empty, and then nothing changes; otherwise it goes to the root member, which is no more loaded than any member; the pool keeps the same members; every count is back to its prior value if the proxy call returns, and the target's count stays one higher if it aborts |
| LoadBalancer.AbortedForwardLeaks | LoadBalancer.go:62-68 | with one idle server in the pool, a forward whose proxy call aborts leaves that server counting one active connection |
| LoadBalancer.ForwardRequestReleased | LoadBalancer.go:48-70 | the handler with the decrement on every exit path: refused exactly when the pool is empty, otherwise routed to the least-loaded root member, and every count is back to its prior value whether or not the proxy call returns |

`CheckHealth` and `GetActive` (main.go:34-38, 46-50) are modelled as functions that read one
field of the table. They change nothing. The contract of `SetHealth` states the
`SetHealth`/`CheckHealth` round trip. `GetActive` is the count that `IncrementActive` and
`DecrementActive` change. `Less` (server_heap.go:14-16) compares the active connections of the
members in two slots, and the sift loops call it. `Len` (server_heap.go:11) is the function the pool operations read
the heap's length through. `Keys` lists, slot by slot, the active-connection counts the heap
compares. The heap lemmas are stated over that list.

## Left out

- Locking: the pool's `sync.Mutex` (server_heap.go:47) and each record's `sync.RWMutex`
  (main.go:18) are not modelled. Each pool method and each record accessor is one atomic step.
  The unlocked reads of `Index` in the health loop (HealthChecker.go:17, 20) and of
  `ActiveConnections` when logging (LoadBalancer.go:62) are races outside the model.
- `Ping` (main.go:52-60) sends an HTTP HEAD request with a two-second timeout. The health pass
  takes its results as a sequence of booleans, one per server.
- The gocron schedule that runs the pass every two seconds (HealthChecker.go:10-12, 26) and
  the goroutine that starts it (LoadBalancer.go:41) are not modelled. `HealthPass` is one tick.
- `loadConfig` (LoadBalancer.go:97-121) reads and parses a JSON file. It is not part of this
  model. `ServerHeap.NewRecordKeepsPool` states that creating records as it does keeps the pool
  valid.
- HTTP serving is not modelled: routing, `statsHandler`, the dashboard page, the reverse proxy
  built in `newServer` (main.go:23-24) and the forwarding call (LoadBalancer.go:65).
  `ForwardRequest` keeps only its pool calls and the proxy call's outcome.
- Logging is not modelled: the `log.Printf` calls on health changes (HealthChecker.go:18, 21)
  and on each forward (LoadBalancer.go:62) only write to the log.
- `Backend/Main.go` holds demo backends. `main_test.go` refers to functions this code does not
  define. Neither is modelled.
- `Weight` (main.go:14) is never assigned or read, and the heap compares raw connection counts.
  The table has no weight column.
- Pointers: a `*Server` is a row of the `ServerTable`. Records change only through the
  operations modelled here. Nothing else aliases a record or writes its fields.
- `Pop` clears the vacated slice cell (server_heap.go:35) only so the garbage collector can
  reclaim it. The model's sequence simply shrinks.
- Go's `int` is 64 bits. Connection counts here are unbounded integers, so wrap-around at the
  64-bit limit is not modelled.
- ServerHeap.ServerPool.AddServer: requires the record to be absent (`index == -1`). The source
  has no guard, and pushing a member twice would corrupt the heap. Both callers
  (HealthChecker.go:17-19 and LoadBalancer.go:118) pass only absent records.
- HealthChecker.HealthPass: requires the list of servers to name distinct records, as
  `loadConfig` builds it with one fresh record per configured backend. Its "member exactly
  when probed alive" covers the listed servers. Pool members outside the list keep their
  membership.
- LoadBalancer.ForwardRequest: the proxy call is an input flag saying whether it returns
  normally. `false` stands for `httputil.ReverseProxy` aborting with a panic, as it does when
  copying the response body fails. The HTTP server then recovers the panic outside the handler,
  and the decrement at LoadBalancer.go:68, which is not deferred, never runs. What the proxy
  sends and receives is not modelled.

## Findings

| source | as written | input that shows it | evidently intended | confidence | as-written member | corrected member |
|---|---|---|---|---|---|---|
| LoadBalancer.go:65-68 | `DecrementActive` is a plain statement after `ServeHTTP`, so it runs only when the proxy call returns | one idle backend in the pool; a request whose proxy call aborts (the client disconnects while the response body is copied) | the decrement runs on every exit path (`defer pool.DecrementActive(target)`), so an aborted forward does not leave the backend's load inflated for good | medium, not executed; relies on the documented abort behaviour of Go's `httputil.ReverseProxy` | LoadBalancer.AbortedForwardLeaks | LoadBalancer.ForwardRequestReleased |
