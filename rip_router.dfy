/**
 The current router (rip_router.py): a `RoutingTable` holding, for every
 known destination, one cost cell per local port, and the router's
 construction of per-neighbour advertisements with poison reverse.
 */
module RipRouter {
  import opened Common

  /** One cell of a destination's row: a cost, or `None` once the port's link went down. */
  datatype Cell = Up(cost: Cost) | Down

  /** `RIPRouter.default_cost`: the cost of a direct link. */
  const DefaultCost: Cost := Fin(1)

  /** A fresh row: `float('inf')` on each of `width` ports. */
  function InfRow(width: nat): (r: seq<Cell>)
    ensures |r| == width
    ensures forall i :: 0 <= i < width ==> r[i] == Up(Inf)
  {
    seq(width, _ => Up(Inf))
  }

  /** A row after the padding loop of `init_new_link`: missing ports get `float('inf')`. */
  function Pad(row: seq<Cell>, width: nat): (r: seq<Cell>)
    ensures |r| == if |row| < width then width else |row|
    ensures forall i :: 0 <= i < |row| ==> r[i] == row[i]
    ensures forall i :: |row| <= i < |r| ==> r[i] == Up(Inf)
  {
    if |row| < width then row + InfRow(width - |row|) else row
  }

  /**
   The smallest cost among the live cells of a row, or `Inf` when no cell
   is live; the value `minimum` computes.
   */
  function MinLive(row: seq<Cell>): (m: Cost)
    ensures forall i :: 0 <= i < |row| && row[i].Up? ==> m.AtMost(row[i].cost)
    ensures m == Inf || exists i :: 0 <= i < |row| && row[i] == Up(m)
  {
    if row == [] then Inf
    else
      var rest := MinLive(row[..|row| - 1]);
      match row[|row| - 1]
      case Down => rest
      case Up(c) => if c.Below(rest) then c else rest
  }

  /** Python's `row.index(c)`: the first position holding cost `c`, if any. */
  function CellIndex(row: seq<Cell>, c: Cost): (r: Option<nat>)
    ensures r.Some? ==> r.value < |row| && row[r.value] == Up(c)
    ensures r.Some? ==> forall j :: 0 <= j < r.value ==> row[j] != Up(c)
    ensures r.None? ==> forall j :: 0 <= j < |row| ==> row[j] != Up(c)
  {
    if row == [] then None
    else if row[0] == Up(c) then Some(0)
    else match CellIndex(row[1..], c)
      case None => None
      case Some(k) => Some(k + 1)
  }

  /** The inner loop of the padding: `insert(i, inf)` wherever `row[i]` raises IndexError. */
  method PadRow(row: seq<Cell>, width: nat) returns (padded: seq<Cell>)
    ensures |padded| == if |row| < width then width else |row|
    ensures padded[..|row|] == row
    ensures forall i :: |row| <= i < |padded| ==> padded[i] == Up(Inf)
    ensures padded == Pad(row, width)
  {
    padded := row;
    for i := 0 to width
      invariant padded == Pad(row, i)
    {
      if |padded| <= i {
        // `insert(i, inf)` at `i == len(row)` appends
        padded := padded + [Up(Inf)];
      }
    }
  }

  /**
   Python's `row.index(minimum(row))`: the lowest port whose cell holds the
   row minimum, or ValueError when every cell is `None` (then no cell equals
   `float('inf')`).
   */
  function MinPort(row: seq<Cell>): (r: Result<nat>)
    ensures r == Err(ValueError) <==> AllDown(row)
    ensures r.Ok? || r == Err(ValueError)
    ensures r.Ok? ==> r.value < |row| && row[r.value] == Up(MinLive(row))
    ensures r.Ok? ==> forall i :: 0 <= i < |row| && row[i].Up? ==> row[r.value].cost.AtMost(row[i].cost)
    ensures r.Ok? ==> forall j :: 0 <= j < r.value && row[j].Up? ==> row[r.value].cost.Below(row[j].cost)
  {
    match CellIndex(row, MinLive(row))
    case None => Err(ValueError)
    case Some(i) => Ok(i)
  }

  /**
   Whether the advertisement for `neighbor`, reached on `port`, lists
   `dest` whose row is `row`: not the neighbour itself, not a destination
   whose minimum-cost port is `port` (poison reverse by omission), and
   never an infinite cost.
   */
  predicate Lists(dest: NodeId, row: seq<Cell>, neighbor: NodeId, port: nat) {
    && dest != neighbor
    && MinLive(row) != Inf
    && MinPort(row) != Ok(port)
  }

  /**
   `update` is the advertisement for `neighbor` under table `t` and port
   bindings `ports`: exactly the destinations `Lists` admits, each with
   its row minimum.
   */
  ghost predicate IsUpdateFor(t: map<NodeId, seq<Cell>>, ports: map<NodeId, nat>, neighbor: NodeId, update: map<NodeId, Cost>)
    requires neighbor in ports
  {
    && (forall d :: d in update <==> d in t && Lists(d, t[d], neighbor, ports[neighbor]))
    && (forall d :: d in update ==> d in t && update[d] == MinLive(t[d]))
  }

  /**
   Collecting, over all neighbours, the non-empty per-neighbour updates
   gives exactly the (neighbour, destination) pairs `Lists` admits, each
   with its row minimum.
   */
  lemma SentMeaning(t: map<NodeId, seq<Cell>>, ports: map<NodeId, nat>, sent: map<NodeId, map<NodeId, Cost>>)
    requires sent.Keys <= ports.Keys
    requires forall n :: n in sent ==> IsUpdateFor(t, ports, n, sent[n])
    requires forall n :: n in ports && n !in sent ==> IsUpdateFor(t, ports, n, map[])
    ensures forall n, d :: n in sent && d in sent[n] ==>
              d in t && Lists(d, t[d], n, ports[n]) && sent[n][d] == MinLive(t[d])
    ensures forall n, d :: (n in ports && d in t && Lists(d, t[d], n, ports[n])) ==> n in sent && d in sent[n]
  {
    forall n, d | n in ports && d in t && Lists(d, t[d], n, ports[n])
      ensures n in sent && d in sent[n]
    {
    }
  }

  /** Every cell of the row is `None`. */
  predicate AllDown(row: seq<Cell>) {
    forall i :: 0 <= i < |row| ==> row[i] == Down
  }

  /**
   The destination x port cost matrix of one router (`RoutingTable`):
   `t` maps a destination to its row, `neighbors` maps a directly linked
   node to its port, and `destinations` lists the known destinations in
   the order they were first seen.
   */
  class RoutingTable {
    var t: map<NodeId, seq<Cell>>
    var neighbors: map<NodeId, nat>
    var destinations: seq<NodeId>

    /** `destinations` lists the keys of `t`, each once; every neighbour has a row. */
    ghost predicate Valid()
      reads this
    {
      && NoDup(destinations)
      && (forall d :: d in t <==> d in destinations)
      && neighbors.Keys <= t.Keys
    }

    constructor ()
      ensures Valid()
      ensures t == map[] && neighbors == map[] && destinations == []
    {
      t := map[];
      neighbors := map[];
      destinations := [];
    }

    /**
     Registers the link to `neighbor` on `port`: a fresh row for it, cost 1
     on that port, then every row padded to `portCount` ports. A port
     beyond the new row raises IndexError after the row was reset.
     */
    method InitNewLink(neighbor: NodeId, port: nat, portCount: nat) returns (err: Option<PyError>)
      requires Valid()
      modifies this
      ensures Valid()
      ensures neighbor in destinations
      ensures destinations == if neighbor in old(destinations) then old(destinations) else old(destinations) + [neighbor]
      ensures portCount <= port ==> err == Some(IndexError)
      ensures portCount <= port ==> t == old(t)[neighbor := InfRow(portCount)] && neighbors == old(neighbors)
      ensures port < portCount ==> err == None
      ensures port < portCount ==> neighbors == old(neighbors)[neighbor := port]
      ensures port < portCount ==> t.Keys == old(t).Keys + {neighbor}
      ensures port < portCount ==> t[neighbor] == InfRow(portCount)[port := Up(DefaultCost)]
      ensures port < portCount ==> forall d :: d in old(t) && d != neighbor ==> t[d] == Pad(old(t)[d], portCount)
    {
      AddDestination(neighbor, portCount);
      err := AddNeighbor(neighbor, port);
      if err.Some? {
        return;
      }
      PadRows(portCount);
    }

    /** The padding loop of `init_new_link`: every row padded with `float('inf')` to `portCount` ports. */
    method PadRows(portCount: nat)
      requires Valid()
      modifies this
      ensures Valid()
      ensures t.Keys == old(t).Keys
      ensures forall d :: d in t ==> t[d] == Pad(old(t)[d], portCount)
      ensures neighbors == old(neighbors) && destinations == old(destinations)
    {
      var pending := t.Keys;
      while pending != {}
        invariant Valid() && t.Keys == old(t).Keys && pending <= t.Keys
        invariant neighbors == old(neighbors) && destinations == old(destinations)
        invariant forall d :: d in t ==> t[d] == if d in pending then old(t)[d] else Pad(old(t)[d], portCount)
        decreases pending
      {
        var dest :| dest in pending;
        var row := PadRow(t[dest], portCount);
        t := t[dest := row];
        pending := pending - {dest};
      }
    }

    /**
     Blanks column `port` (sets it to `None`) in every row, then forgets
     `neighbor`. Rows are visited in no particular order: a row too short
     for `port` raises IndexError with only some rows blanked, and an
     unknown neighbour raises KeyError after all rows were blanked.
     */
    method TakeLinkDown(neighbor: NodeId, port: nat) returns (err: Option<PyError>)
      requires Valid()
      modifies this
      ensures Valid()
      ensures t.Keys == old(t).Keys && destinations == old(destinations)
      ensures err == Some(IndexError) <==> exists d :: d in old(t) && |old(t)[d]| <= port
      ensures forall d :: d in t ==> t[d] == old(t)[d] || (port < |old(t)[d]| && t[d] == old(t)[d][port := Down])
      ensures err != Some(IndexError) ==> forall d :: d in t ==> port < |old(t)[d]| && t[d] == old(t)[d][port := Down]
      ensures err == Some(KeyError) <==> err != Some(IndexError) && neighbor !in old(neighbors)
      ensures err == None ==> neighbors == old(neighbors) - {neighbor}
      ensures err != None ==> neighbors == old(neighbors)
    {
      var pending := t.Keys;
      while pending != {}
        invariant Valid() && t.Keys == old(t).Keys && pending <= t.Keys
        invariant destinations == old(destinations) && neighbors == old(neighbors)
        invariant forall d :: d in t && d in pending ==> t[d] == old(t)[d]
        invariant forall d :: d in t && d !in pending ==> port < |old(t)[d]| && t[d] == old(t)[d][port := Down]
        decreases pending
      {
        var dest :| dest in pending;
        if |t[dest]| <= port {
          return Some(IndexError);
        }
        t := t[dest := t[dest][port := Down]];
        pending := pending - {dest};
      }
      if neighbor !in neighbors {
        return Some(KeyError);
      }
      neighbors := neighbors - {neighbor};
      err := None;
    }

    /** Resets `dest`'s row to `float('inf')` on every port; lists `dest` once. */
    method AddDestination(dest: NodeId, portCount: nat)
      requires Valid()
      modifies this
      ensures Valid()
      ensures t == old(t)[dest := InfRow(portCount)]
      ensures destinations == if dest in old(destinations) then old(destinations) else old(destinations) + [dest]
      ensures neighbors == old(neighbors)
    {
      t := t[dest := InfRow(portCount)];
      if dest !in destinations {
        destinations := destinations + [dest];
      }
    }

    /**
     Records the direct link to `neighbor`: cost 1 in its row on `port`, and
     the port binding. KeyError without a row, IndexError for a port beyond it.
     */
    method AddNeighbor(neighbor: NodeId, port: nat) returns (err: Option<PyError>)
      requires Valid()
      modifies this
      ensures Valid()
      ensures neighbor !in old(t) ==> err == Some(KeyError)
      ensures neighbor in old(t) && |old(t)[neighbor]| <= port ==> err == Some(IndexError)
      ensures err.Some? ==> unchanged(this)
      ensures err.None? <==> neighbor in old(t) && port < |old(t)[neighbor]|
      ensures err.None? ==> t == old(t)[neighbor := old(t)[neighbor][port := Up(DefaultCost)]]
      ensures err.None? ==> neighbors == old(neighbors)[neighbor := port] && destinations == old(destinations)
    {
      if neighbor !in t {
        return Some(KeyError);
      }
      if |t[neighbor]| <= port {
        return Some(IndexError);
      }
      t := t[neighbor := t[neighbor][port := Up(DefaultCost)]];
      neighbors := neighbors[neighbor := port];
      err := None;
    }

    /**
     The port `hand_off` forwards on: the lowest port whose cell holds the
     row minimum. KeyError for an unknown destination; ValueError when
     every cell is `None` (no cell equals `float('inf')`).
     */
    function ForwardingPort(dest: NodeId): (r: Result<nat>)
      reads this
      ensures dest !in t ==> r == Err(KeyError)
      ensures dest in t ==> (r == Err(ValueError) <==> AllDown(t[dest]))
      ensures dest in t ==> r.Ok? || r == Err(ValueError)
      ensures r.Ok? ==> dest in t && r.value < |t[dest]| && t[dest][r.value].Up?
      ensures r.Ok? ==> forall i :: 0 <= i < |t[dest]| && t[dest][i].Up? ==> t[dest][r.value].cost.AtMost(t[dest][i].cost)
      ensures r.Ok? ==> forall j :: 0 <= j < r.value && t[dest][j].Up? ==> t[dest][r.value].cost.Below(t[dest][j].cost)
    {
      if dest !in t then Err(KeyError) else MinPort(t[dest])
    }

    /** `minimum`: the loop over a row that skips `None` cells. */
    method Minimum(costs: seq<Cell>) returns (minVal: Cost)
      ensures minVal == MinLive(costs)
    {
      minVal := Inf;
      for i := 0 to |costs|
        invariant minVal == MinLive(costs[..i])
      {
        assert costs[..i + 1][..i] == costs[..i];
        match costs[i]
        case Down =>
        case Up(c) =>
          if c.Below(minVal) {
            minVal := c;
          }
      }
      assert costs[..|costs|] == costs;
    }
  }

  /** `RIPRouter` of rip_router.py, reduced to the routing logic it owns. */
  class Router {
    const routingTable: RoutingTable

    constructor ()
      ensures fresh(routingTable) && routingTable.Valid()
      ensures routingTable.t == map[] && routingTable.neighbors == map[] && routingTable.destinations == []
    {
      routingTable := new RoutingTable();
    }

    /**
     `send_updates`: the advertisements sent, keyed by neighbour. Each
     neighbour's advertisement lists exactly the known destinations other
     than itself whose minimum cost is finite and is not reached through
     that neighbour's port, each with the row minimum; an empty one is not
     sent. Any row without a live cell makes `index` raise ValueError
     before anything is sent, unless there is no neighbour.
     */
    method SendUpdates() returns (r: Result<map<NodeId, map<NodeId, Cost>>>)
      requires routingTable.Valid()
      ensures r.Err? <==> (routingTable.neighbors != map[] && exists d :: d in routingTable.t && AllDown(routingTable.t[d]))
      ensures r.Err? ==> r.error == ValueError
      ensures r.Ok? ==> r.value.Keys <= routingTable.neighbors.Keys
      ensures r.Ok? ==> forall n :: n in r.value ==> r.value[n] != map[]
      ensures r.Ok? ==> forall n, d :: n in r.value && d in r.value[n] ==>
                          && d in routingTable.t
                          && Lists(d, routingTable.t[d], n, routingTable.neighbors[n])
                          && r.value[n][d] == MinLive(routingTable.t[d])
      ensures r.Ok? ==> forall n, d :: (n in routingTable.neighbors && d in routingTable.t
                                        && Lists(d, routingTable.t[d], n, routingTable.neighbors[n]))
                                       ==> n in r.value && d in r.value[n]
    {
      var sent := CollectUpdates();
      if sent.None? {
        return Err(ValueError);
      }
      SentMeaning(routingTable.t, routingTable.neighbors, sent.value);
      r := Ok(sent.value);
    }

    /**
     The loop of `send_updates`: the non-empty update for every neighbour,
     or None when some row has no live cell and there is a neighbour.
     */
    method CollectUpdates() returns (r: Option<map<NodeId, map<NodeId, Cost>>>)
      requires routingTable.Valid()
      ensures r.None? <==> (routingTable.neighbors != map[] && exists d :: d in routingTable.t && AllDown(routingTable.t[d]))
      ensures r.Some? ==> r.value.Keys <= routingTable.neighbors.Keys
      ensures r.Some? ==> forall n :: n in r.value ==> r.value[n] != map[] && IsUpdateFor(routingTable.t, routingTable.neighbors, n, r.value[n])
      ensures r.Some? ==> forall n :: n in routingTable.neighbors && n !in r.value ==> IsUpdateFor(routingTable.t, routingTable.neighbors, n, map[])
    {
      var table := routingTable;
      ghost var t := table.t;
      ghost var ports := table.neighbors;
      var sent: map<NodeId, map<NodeId, Cost>> := map[];
      var pending := table.neighbors.Keys;
      while pending != {}
        invariant pending <= ports.Keys
        invariant pending != ports.Keys ==> forall d :: d in t ==> !AllDown(t[d])
        invariant sent.Keys <= ports.Keys - pending
        invariant forall n :: n in sent ==> sent[n] != map[] && IsUpdateFor(t, ports, n, sent[n])
        invariant forall n :: n in ports && n !in pending && n !in sent ==> IsUpdateFor(t, ports, n, map[])
        decreases pending
      {
        var neighbor :| neighbor in pending;
        var update := BuildUpdate(neighbor);
        if update.None? {
          return None;
        }
        if update.value != map[] {
          sent := sent[neighbor := update.value];
        }
        pending := pending - {neighbor};
      }
      r := Some(sent);
    }

    /**
     The body of `send_updates` for one neighbour: the destinations it is
     told about, with their costs, or None when some row has no live cell
     (`index` raises ValueError).
     */
    method BuildUpdate(neighbor: NodeId) returns (r: Option<map<NodeId, Cost>>)
      requires routingTable.Valid() && neighbor in routingTable.neighbors
      ensures r.None? <==> exists d :: d in routingTable.t && AllDown(routingTable.t[d])
      ensures r.Some? ==> IsUpdateFor(routingTable.t, routingTable.neighbors, neighbor, r.value)
    {
      var table := routingTable;
      var paths: map<NodeId, Cost> := map[];
      for k := 0 to |table.destinations|
        invariant forall j :: 0 <= j < k ==> !AllDown(table.t[table.destinations[j]])
        invariant forall d :: d in paths ==>
                    d in table.t && Lists(d, table.t[d], neighbor, table.neighbors[neighbor]) && paths[d] == MinLive(table.t[d])
        invariant forall j :: 0 <= j < k && Lists(table.destinations[j], table.t[table.destinations[j]], neighbor, table.neighbors[neighbor])
                    ==> table.destinations[j] in paths
      {
        var dest := table.destinations[k];
        var minVal := table.Minimum(table.t[dest]);
        var index := CellIndex(table.t[dest], minVal);
        if index.None? {
          return None;
        }
        var minCost := if index.value == table.neighbors[neighbor] then Inf else minVal;
        if dest != neighbor && minCost != Inf {
          paths := paths[dest := minCost];
        }
      }
      forall d | d in table.t && Lists(d, table.t[d], neighbor, table.neighbors[neighbor])
        ensures d in paths
      {
        var j :| 0 <= j < |table.destinations| && table.destinations[j] == d;
      }
      r := Some(paths);
    }

    /**
     `discover`: a link-up or link-down notice from `src` on `port`
     updates the table, then the advertisements are built.
     */
    method Discover(src: NodeId, isLinkUp: bool, port: nat, portCount: nat)
      returns (r: Result<map<NodeId, map<NodeId, Cost>>>)
      requires routingTable.Valid()
      modifies routingTable
      ensures routingTable.Valid()
      ensures isLinkUp ==> src in routingTable.destinations
      ensures isLinkUp && portCount <= port ==> r == Err(IndexError)
      ensures !isLinkUp && src !in old(routingTable.neighbors) ==> r.Err?
      ensures !isLinkUp && r.Ok? ==> src !in routingTable.neighbors
    {
      var err;
      if isLinkUp {
        err := routingTable.InitNewLink(src, port, portCount);
      } else {
        err := routingTable.TakeLinkDown(src, port);
      }
      if err.Some? {
        return Err(err.value);
      }
      r := SendUpdates();
    }
  }
}
