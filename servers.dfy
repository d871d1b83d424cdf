/** The per-backend record of main.go and the memory that holds every record the program
    creates. Records are stored by field: row `id` of each sequence below is one `Server`, and
    a Go `*Server` is modelled as its row, so the pool and the list of all servers share
    records exactly as the pointers do. */
module Servers {

  /** A possibly nil reference. */
  datatype Option<T> = None | Some(value: T)

  class ServerTable {
    var names: seq<string>
    var urls: seq<string>
    var health: seq<bool>
    var activeConnections: seq<int>
    /** The record's slot in the pool's heap, or -1 while it is not a member. */
    var index: seq<int>

    /** Every field has one entry per record. */
    ghost predicate Valid()
      reads this
    {
      |urls| == |names| && |health| == |names| &&
      |activeConnections| == |names| && |index| == |names|
    }

    function Count(): nat
      reads this
    {
      |names|
    }

    /** Between two states, only heap slots were rewritten. */
    twostate predicate OnlyIndexChanged()
      reads this
    {
      names == old(names) && urls == old(urls) && health == old(health) &&
      activeConnections == old(activeConnections) && |index| == old(|index|)
    }

    /** The table before any server is configured. */
    constructor ()
      ensures Valid() && Count() == 0
    {
      names, urls, health, activeConnections, index := [], [], [], [], [];
    }

    /** newServer: a fresh record, healthy, idle and outside the pool, with its name and
        address stored as given. */
    method NewServer(name: string, url: string) returns (id: nat)
      requires Valid()
      modifies this
      ensures Valid() && id == old(Count()) && Count() == id + 1
      ensures names == old(names) + [name] && urls == old(urls) + [url]
      ensures health == old(health) + [true] && activeConnections == old(activeConnections) + [0]
      ensures index == old(index) + [-1]
    {
      id := |names|;
      names := names + [name];
      urls := urls + [url];
      health := health + [true];
      activeConnections := activeConnections + [0];
      index := index + [-1];
    }

    function CheckHealth(id: nat): bool
      requires Valid() && id < Count()
      reads this
    {
      health[id]
    }

    /** Writes the health flag of one record and nothing else; CheckHealth then reports it. */
    method SetHealth(id: nat, alive: bool)
      requires Valid() && id < Count()
      modifies this
      ensures Valid() && health == old(health)[id := alive] && CheckHealth(id) == alive
      ensures names == old(names) && urls == old(urls)
      ensures activeConnections == old(activeConnections) && index == old(index)
    {
      health := health[id := alive];
    }

    function GetActive(id: nat): int
      requires Valid() && id < Count()
      reads this
    {
      activeConnections[id]
    }
  }
}
