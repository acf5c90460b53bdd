/**
 The archived RIP router: a `CostTable` holding, per destination, a list of
 one-entry records `{neighbor: cost}` in the order they were linked, and a
 router that derives forwarding paths and per-neighbour poison-reverse
 advertisements from the cheapest record of each destination. Each method
 is proved against the specification functions of `CostTableSpec`.
 */
module ArchiveRipRouter {
  import opened Common
  import opened CostTableSpec

  class CostTable {
    /** Per destination, the records `{neighbor: cost}` in link order. */
    var table: Table
    /** Port of each directly linked neighbour. */
    var ports: map<NodeId, nat>
    /** Destinations in the order they were added (may repeat). */
    var destinations: seq<NodeId>
    /** Linked neighbours in the order they came up (may repeat). */
    var neighbors: seq<NodeId>
    var hasTableConverged: bool

    /** The part of the state `update_table` changes. */
    ghost function Snap(): Snapshot
      reads this
    {
      Snapshot(table, destinations, hasTableConverged)
    }

    /** `destinations` lists exactly the keys of `table`. */
    ghost predicate Valid()
      reads this
    {
      Tracked(Snap())
    }

    constructor ()
      ensures Valid()
      ensures table == map[] && ports == map[] && destinations == [] && neighbors == []
      ensures !hasTableConverged
    {
      table := map[];
      ports := map[];
      destinations := [];
      neighbors := [];
      hasTableConverged := false;
    }

    /** `link_up`: record the neighbour, give it a fresh empty row, remember its port. */
    method LinkUp(src: NodeId, port: nat)
      requires Valid()
      modifies this`neighbors, this`destinations, this`table, this`ports
      ensures Valid()
      ensures neighbors == old(neighbors) + [src]
      ensures destinations == old(destinations) + [src]
      ensures table == old(table)[src := []]
      ensures ports == old(ports)[src := port]
    {
      AddNeighbor(src);
      AddDestination(src);
      AddPort(src, port);
    }

    /**
     `initial_setup`: clear the converged flag and link, for every listed
     destination and every neighbour, the seeded record (one hop to the
     neighbour itself, infinity otherwise).
     */
    method InitialSetup()
      requires Valid()
      modifies this`table, this`hasTableConverged
      ensures AllIn(old(destinations), old(table))
      ensures table == SetupTable(old(table), old(destinations), old(neighbors))
      ensures Valid()
      ensures !hasTableConverged
    {
      TrackedAllIn(Snap());
      ghost var t0 := table;
      var dests := destinations;
      AllInPrefix(dests, t0, 0);
      hasTableConverged := false;
      for i := 0 to |dests|
        invariant !hasTableConverged
        invariant AllIn(dests[..i], t0) && table == SetupTable(t0, dests[..i], neighbors)
      {
        SetupTableStep(t0, dests, neighbors, i);
        SetupDestination(dests[i]);
      }
      assert dests[..|dests|] == dests;
      assert table.Keys == t0.Keys;
    }

    /** The inner loop of `initial_setup`: link each neighbour's seeded record for `dest`. */
    method SetupDestination(dest: NodeId)
      requires dest in table
      modifies this`table
      ensures table == old(table)[dest := SetupRow(old(table)[dest], dest, neighbors)]
    {
      for j := 0 to |neighbors|
        invariant table == old(table)[dest := SetupRow(old(table)[dest], dest, neighbors[..j])]
      {
        var neighbor := neighbors[j];
        var cost := if dest == neighbor then OneHopCost else Inf;
        SetupRowStep(old(table)[dest], dest, neighbors, j);
        LinkTable(dest, neighbor, cost);
      }
      assert neighbors[..|neighbors|] == neighbors;
    }

    /** `link_down`: forget the neighbour and its records, then its port. */
    method LinkDown(src: NodeId, port: nat) returns (err: Option<PyError>)
      requires Valid()
      modifies this`neighbors, this`table, this`ports, this`hasTableConverged
      ensures Valid()
      ensures src !in old(neighbors) ==> err == Some(ValueError) && unchanged(this)
      ensures src in old(neighbors) ==>
                && neighbors == RemoveFirst(old(neighbors), src)
                && table == DropFromTable(old(table), src)
      ensures src in old(neighbors) && src in old(ports) ==>
                err.None? && ports == old(ports) - {src} && !hasTableConverged
      ensures src in old(neighbors) && src !in old(ports) ==>
                err == Some(KeyError) && ports == old(ports) && hasTableConverged == old(hasTableConverged)
    {
      err := DelNeighbor(src);
      if err.Some? {
        return;
      }
      err := DelPort(src);
      if err.Some? {
        return;
      }
      hasTableConverged := false;
    }

    /**
     `minimum_costs`: for each destination, the first record of least cost.
     `min` of an empty row raises ValueError.
     */
    method MinimumCosts() returns (r: Result<map<NodeId, Record>>)
      requires Valid()
      ensures r.Err? <==> !NoEmptyRow(table)
      ensures r.Err? ==> r.error == ValueError
      ensures r.Ok? ==> r.value.Keys == table.Keys
      ensures r.Ok? ==> NoEmptyRow(table) && forall d :: d in r.value ==> r.value[d] == MinRecord(table[d])
    {
      var minTable := map[];
      for k := 0 to |destinations|
        invariant forall d :: d in minTable <==> d in destinations[..k]
        invariant forall d :: d in minTable ==> d in table && table[d] != [] && minTable[d] == MinRecord(table[d])
      {
        var dest := destinations[k];
        assert destinations[..k + 1] == destinations[..k] + [dest];
        var row := table[dest];
        if row == [] {
          return Err(ValueError);
        }
        minTable := minTable[dest := row[FirstMinIndex(row)]];
      }
      assert destinations[..|destinations|] == destinations;
      return Ok(minTable);
    }

    /** `get_routing_cost`: the cost of `neighbor`'s first record for `dest`. */
    method GetRoutingCost(dest: NodeId, neighbor: NodeId) returns (r: Option<Cost>)
      ensures r == RoutingCost(table, dest, neighbor)
    {
      if dest !in table {
        return Some(Inf);
      }
      var row := table[dest];
      for k := 0 to |row|
        invariant forall j :: 0 <= j < k ==> row[j].neighbor != neighbor
      {
        if row[k].neighbor == neighbor {
          IndexOfAt(row, neighbor, k);
          return Some(row[k].cost);
        }
      }
      return None;
    }

    /** `handle_unknown_dest`: add the destination, then re-seed the whole table. */
    method HandleUnknownDest(dest: NodeId)
      requires Valid()
      modifies this`destinations, this`table, this`hasTableConverged
      ensures destinations == old(destinations) + [dest]
      ensures AllIn(destinations, old(table)[dest := []])
      ensures table == SetupTable(old(table)[dest := []], destinations, neighbors)
      ensures Valid()
      ensures !hasTableConverged
    {
      AddDestination(dest);
      InitialSetup();
    }

    /**
     `update_table(src, paths)`, with the dictionary's iteration order made
     explicit as `order`: install `1 + cost` on `src`'s record of every
     advertised destination, then withdraw `src`'s record from every other
     destination.
     */
    method UpdateTable(src: NodeId, paths: map<NodeId, Cost>, order: seq<NodeId>)
      requires Valid() && Enumerates(order, paths)
      modifies this`destinations, this`table, this`hasTableConverged
      ensures Valid()
      ensures Snap() == Updated(old(Snap()), neighbors, src, paths, order)
    {
      ReceivePaths(src, paths, order);
      WithdrawRoutes(src, paths.Keys);
    }

    /** `update_table`'s first loop: take in each advertised destination in turn. */
    method ReceivePaths(src: NodeId, paths: map<NodeId, Cost>, order: seq<NodeId>)
      requires Valid() && forall k :: 0 <= k < |order| ==> order[k] in paths
      modifies this`destinations, this`table, this`hasTableConverged
      ensures Valid()
      ensures Snap() == ReceiveAll(old(Snap()), neighbors, src, paths, order)
    {
      ghost var s0 := Snap();
      for k := 0 to |order|
        invariant Valid()
        invariant Snap() == ReceiveAll(s0, neighbors, src, paths, order[..k])
      {
        ReceiveAllStep(s0, neighbors, src, paths, order, k);
        ReceivePath(src, order[k], paths[order[k]]);
      }
      assert order[..|order|] == order;
    }

    /** `update_table`'s second loop: drop `src`'s record for every destination it did not advertise. */
    method WithdrawRoutes(src: NodeId, advertised: set<NodeId>)
      requires Valid()
      modifies this`table
      ensures AllIn(old(destinations), old(table))
      ensures table == Withdraw(old(table), old(destinations), src, advertised)
      ensures Valid()
    {
      TrackedAllIn(Snap());
      ghost var t0 := table;
      var dests := destinations;
      AllInPrefix(dests, t0, 0);
      for k := 0 to |dests|
        invariant AllIn(dests[..k], t0) && table == Withdraw(t0, dests[..k], src, advertised)
      {
        WithdrawStep(t0, dests, src, advertised, k);
        var dest := dests[k];
        if dest !in advertised && dest != src {
          WithdrawFrom(dest, src);
        }
      }
      assert dests[..|dests|] == dests;
    }

    /** The body of the withdrawal loop: `if ind:` pops `src`'s record unless it is first. */
    method WithdrawFrom(dest: NodeId, src: NodeId)
      requires dest in table
      modifies this`table
      ensures table == old(table)[dest := WithdrawRow(old(table)[dest], src)]
    {
      var ind := IndexOfNeighbor(table[dest], src);
      if ind.Some? && ind.value != 0 {
        table := table[dest := table[dest][..ind.value] + table[dest][ind.value + 1..]];
      }
    }

    /** One iteration of `update_table`'s first loop. */
    method ReceivePath(src: NodeId, dest: NodeId, advertised: Cost)
      requires Valid()
      modifies this`destinations, this`table, this`hasTableConverged
      ensures Valid()
      ensures Snap() == ReceiveOne(old(Snap()), neighbors, src, dest, advertised)
    {
      if dest !in destinations {
        hasTableConverged := false;
        HandleUnknownDest(dest);
      } else {
        var ind := IndexOfNeighbor(table[dest], src);
        if ind.Some? {
          var want := advertised.AddHop();
          if table[dest][ind.value].cost == want {
            hasTableConverged := true;
          } else {
            hasTableConverged := false;
            table := table[dest := table[dest][ind.value := Record(src, want)]];
          }
        }
      }
    }

    /** `index_of`: the position of `neighbor`'s first record, `None` when it has none. */
    method IndexOfNeighbor(row: Row, neighbor: NodeId) returns (r: Option<nat>)
      ensures r == IndexOf(row, neighbor)
    {
      for k := 0 to |row|
        invariant forall j :: 0 <= j < k ==> row[j].neighbor != neighbor
      {
        if row[k].neighbor == neighbor {
          IndexOfAt(row, neighbor, k);
          return Some(k);
        }
      }
      return None;
    }

    /** `link_table`: append the record to `destination`'s row unless an equal record is there. */
    method LinkTable(destination: NodeId, neighbor: NodeId, cost: Cost)
      requires destination in table
      modifies this`table
      ensures table == old(table)[destination := LinkRow(old(table)[destination], Record(neighbor, cost))]
    {
      var d := Record(neighbor, cost);
      if d !in table[destination] {
        table := table[destination := table[destination] + [d]];
      }
    }

    /** `add_destination`: list `dest` and give it an empty row, replacing any row it had. */
    method AddDestination(dest: NodeId)
      requires Valid()
      modifies this`destinations, this`table
      ensures Valid()
      ensures destinations == old(destinations) + [dest]
      ensures table == old(table)[dest := []]
    {
      destinations := destinations + [dest];
      table := table[dest := []];
    }

    method AddNeighbor(neighbor: NodeId)
      modifies this`neighbors
      ensures neighbors == old(neighbors) + [neighbor]
    {
      neighbors := neighbors + [neighbor];
    }

    /** `del_neighbor`: `list.index` raises ValueError for a neighbour that is not listed. */
    method DelNeighbor(neighbor: NodeId) returns (err: Option<PyError>)
      requires Valid()
      modifies this`neighbors, this`table
      ensures Valid()
      ensures neighbor !in old(neighbors) ==> err == Some(ValueError) && unchanged(this)
      ensures neighbor in old(neighbors) ==>
                && err.None?
                && neighbors == RemoveFirst(old(neighbors), neighbor)
                && table == DropFromTable(old(table), neighbor)
    {
      if neighbor !in neighbors {
        return Some(ValueError);
      }
      neighbors := RemoveFirst(neighbors, neighbor);
      DelNeighborFromTable(neighbor);
      return None;
    }

    /** `del_neighbor_from_table`, visiting the destinations in any order. */
    method DelNeighborFromTable(neighbor: NodeId)
      requires Valid()
      modifies this`table
      ensures Valid()
      ensures table == DropFromTable(old(table), neighbor)
    {
      ghost var t0 := table;
      var pending := table.Keys;
      while pending != {}
        invariant pending <= t0.Keys && table.Keys == t0.Keys
        invariant forall d :: d in table ==> table[d] == if d in pending then t0[d] else DropFromTable(t0, neighbor)[d]
        decreases pending
      {
        var dest :| dest in pending;
        SweepRow(dest, neighbor);
        pending := pending - {dest};
      }
    }

    /**
     The inner loop of `del_neighbor_from_table` for one destination:
     popping from the row while iterating over it, as Python's list
     iterator does (the record after a popped one is not looked at).
     */
    method SweepRow(dest: NodeId, neighbor: NodeId)
      requires dest in table
      modifies this`table
      ensures table == old(table)[dest := if dest == neighbor then old(table)[dest] else Sweep(old(table)[dest], 0, neighbor)]
    {
      var row := table[dest];
      var i := 0;
      while i < |row|
        invariant dest == neighbor ==> row == table[dest]
        invariant dest != neighbor ==> Sweep(row, i, neighbor) == Sweep(table[dest], 0, neighbor)
        decreases |row| - i
      {
        var d := row[i];
        if d.neighbor == neighbor && dest != neighbor {
          row := RemoveFirst(row, d);
        }
        i := i + 1;
      }
      table := table[dest := row];
    }

    method AddPort(dest: NodeId, port: nat)
      modifies this`ports
      ensures ports == old(ports)[dest := port]
    {
      ports := ports[dest := port];
    }

    /** `del_port`: `del` of a missing key raises KeyError. */
    method DelPort(dest: NodeId) returns (err: Option<PyError>)
      modifies this`ports
      ensures dest !in old(ports) ==> err == Some(KeyError) && ports == old(ports)
      ensures dest in old(ports) ==> err.None? && ports == old(ports) - {dest}
    {
      if dest !in ports {
        return Some(KeyError);
      }
      ports := ports - {dest};
      return None;
    }

    /** `get_port`: the neighbour's port, `None` for an unknown one. */
    function GetPort(dest: NodeId): (r: Option<nat>)
      reads this
      ensures r.Some? <==> dest in ports
      ensures r.Some? ==> r.value == ports[dest]
    {
      if dest in ports then Some(ports[dest]) else None
    }
  }

  class Router {
    const table: CostTable
    /** Next hop per destination, as `make_paths2` last built it. */
    var paths: map<NodeId, NodeId>
    /** Per neighbour, the advertisement `organize_updates` last built. */
    var update: map<NodeId, map<NodeId, Cost>>

    constructor ()
      ensures fresh(table) && table.Valid()
      ensures table.table == map[] && table.ports == map[] && table.destinations == [] && table.neighbors == []
      ensures paths == map[] && update == map[]
    {
      table := new CostTable();
      paths := map[];
      update := map[];
    }

    /** `forward_to`: the next hop towards `dest`, `None` when there is none. */
    function ForwardTo(dest: NodeId): (r: Option<NodeId>)
      reads this
      ensures r.Some? <==> dest in paths
      ensures r.Some? ==> r.value == paths[dest]
    {
      if dest in paths then Some(paths[dest]) else None
    }

    /**
     `make_paths2`: route every destination via the neighbour of its
     cheapest record, infinite cost included. The paths are cleared first,
     so they stay empty when `minimum_costs` raises.
     */
    method MakePaths2() returns (err: Option<PyError>)
      requires table.Valid()
      modifies this`paths
      ensures err.Some? <==> !NoEmptyRow(table.table)
      ensures err.Some? ==> err == Some(ValueError) && paths == map[]
      ensures err.None? ==>
                && NoEmptyRow(table.table)
                && forall d :: ForwardTo(d) == if d in table.table then Some(MinRecord(table.table[d]).neighbor) else None
    {
      paths := map[];
      var minCost := table.MinimumCosts();
      if minCost.Err? {
        return Some(minCost.error);
      }
      var mins := minCost.value;
      var pending := mins.Keys;
      while pending != {}
        invariant pending <= mins.Keys
        invariant forall d :: d in paths <==> d in mins && d !in pending
        invariant forall d :: d in paths ==> paths[d] == mins[d].neighbor
        decreases pending
      {
        var dest :| dest in pending;
        paths := paths[dest := mins[dest].neighbor];
        pending := pending - {dest};
      }
      return None;
    }

    /**
     `make_update2(neighbor)`: advertise every destination's least cost,
     except the destinations whose cheapest record is via `neighbor`
     (poison reverse by omission).
     */
    method MakeUpdate2(neighbor: NodeId) returns (r: Result<map<NodeId, Cost>>)
      requires table.Valid()
      ensures r.Err? <==> !NoEmptyRow(table.table)
      ensures r.Err? ==> r.error == ValueError
      ensures r.Ok? ==> NoEmptyRow(table.table) && IsAdvertisement(table.table, neighbor, r.value)
    {
      var minCost := table.MinimumCosts();
      if minCost.Err? {
        return Err(minCost.error);
      }
      var mins := minCost.value;
      var advert := map[];
      var pending := mins.Keys;
      while pending != {}
        invariant pending <= mins.Keys
        invariant forall d :: d in advert <==> d in mins && d !in pending && mins[d].neighbor != neighbor
        invariant forall d :: d in advert ==> advert[d] == mins[d].cost
        decreases pending
      {
        var dest :| dest in pending;
        if mins[dest].neighbor != neighbor {
          advert := advert[dest := mins[dest].cost];
        }
        pending := pending - {dest};
      }
      return Ok(advert);
    }

    /** `organize_updates`: one poison-reverse advertisement per listed neighbour. */
    method OrganizeUpdates() returns (err: Option<PyError>)
      requires table.Valid()
      modifies this`update
      ensures err.Some? <==> table.neighbors != [] && !NoEmptyRow(table.table)
      ensures err.Some? ==> err == Some(ValueError) && update == old(update)
      ensures err.None? ==> forall n :: n in update <==> n in table.neighbors
      ensures err.None? ==> forall n :: n in update ==> NoEmptyRow(table.table) && IsAdvertisement(table.table, n, update[n])
    {
      var updates := map[];
      for k := 0 to |table.neighbors|
        invariant update == old(update)
        invariant forall n :: n in updates <==> n in table.neighbors[..k]
        invariant k > 0 ==> NoEmptyRow(table.table)
        invariant forall n :: n in updates ==> NoEmptyRow(table.table) && IsAdvertisement(table.table, n, updates[n])
      {
        var n := table.neighbors[k];
        assert table.neighbors[..k + 1] == table.neighbors[..k] + [n];
        var u := MakeUpdate2(n);
        if u.Err? {
          return Some(u.error);
        }
        updates := updates[n := u.value];
      }
      assert table.neighbors[..|table.neighbors|] == table.neighbors;
      update := updates;
      return None;
    }
  }
}
