# RIP router: a Dafny model of its routing tables

This project models the routing core of a distance-vector (RIP-style)
router written for a network simulator. It covers both versions of the
router in the repository:

- **The current router** (`rip_router.py`) is module `RipRouter`.
  - A `RoutingTable` holds a cost matrix, with one row per known
    destination and one cell per local port. A cell holds a hop count,
    `float('inf')`, or `None` once that port's link went down.
  - `neighbors` binds each directly linked node to its port.
  - `destinations` lists the known destinations in the order first seen.
  - The `RIPRouter` builds one advertisement per neighbour, with poison
    reverse by omission.
- **The archived router** (`archive/rip_router.py`) is modules
  `CostTableSpec` and `ArchiveRipRouter`.
  - A `CostTable` maps each destination to a list of single-entry
    `{neighbor: cost}` records.
  - Its methods add and remove links and seed the table. `update_table`
    applies a neighbour's advertisement and then implicitly withdraws the
    routes that neighbour no longer advertises.
  - The `RIPRouter` derives next hops and per-neighbour advertisements
    from the cheapest record of each destination.
- **Shared vocabulary** is module `Common`:
  - node identities;
  - costs, with `float('inf')` as the constructor `Inf` and `1 + inf = inf`;
  - Python's `KeyError`, `IndexError` and `ValueError` as values, so every
    error path of the router code is a result, not a precondition.

## How the modules fit

- **Classes mirror the Python classes.** Every class whose methods update fields in
  place is a Dafny `class` with those fields. Each method is proved to
  leave the state given by a value-level function:
  - `SetupTable` for `initial_setup`;
  - `Updated` for `update_table`;
  - `DropFromTable` for `del_neighbor_from_table`;
  - `Pad` for the padding loop of `init_new_link`.
- **The lemmas of `CostTableSpec` state what those functions promise.**
  - Seeding is idempotent.
  - An advertised known destination ends with cost `1 + advertised` via
    the sender.
  - An unknown one is seeded instead.
  - An unadvertised route via the sender is withdrawn.
  - Deleting a neighbour keeps every other neighbour's records.
- **The advertisement functions are defined once, as ghost predicates:**
  `IsUpdateFor` for the current router and `IsAdvertisement` for the
  archived one. The loop-based methods that build advertisements are
  proved to produce exactly what those predicates describe.
- **Dictionary iteration order:**
  - Where the result depends on the order, the order is an explicit
    parameter. This is the `order` of `update_table`'s `for dest in paths`.
  - Everywhere else the loop picks an arbitrary key, and the contract
    holds for every choice.

The model keeps the behaviour as written, including these quirks. Each is
stated by a lemma:

- `update_table`'s withdrawal tests `if ind:`. A route via the sender held
  in a row's first record (index 0) is therefore never withdrawn
  (`UpdateKeepsIndexZero`).
- `del_neighbor_from_table` pops from the list it is iterating over.
  - The record right after each popped one is skipped. If two records of
    the dropped neighbour are adjacent, at least one of its records stays
    behind (`SweepKeepsAdjacent`).
  - All of them go exactly when no two are adjacent (`SweepClearsIffApart`).
- An advertised destination that was unknown is added and seeded. The cost
  it was advertised with is dropped (`UpdateSeedsUnknown`).
- The converged flag after `update_table` is set only by the advertised
  destinations that were unknown or had a record via the sender.
  - The last such destination decides it (`UpdateConvergedFlag`,
    `UpdateConvergedFlagMid`).
  - When the last advertised destination has no record via the sender,
    the caught `TypeError` leaves the flag an earlier destination set.
  - An empty advertisement leaves the flag as it was.

## Model

| member | source | states |
|---|---|---|
| RipRouter.InfRow | rip_router.py:84 | a fresh row has exactly `width` cells, all `float('inf')` |
| RipRouter.Pad | rip_router.py:71-76 | padding keeps every existing cell and fills the row with `float('inf')` up to `width` cells, never shortening it |
| RipRouter.PadRow | rip_router.py:72-76 | the try/`IndexError`/insert loop for one row leaves the old cells as a prefix, `float('inf')` after them, length `max(len, width)`: the row `Pad` describes |
| RipRouter.MinLive | rip_router.py:97-104 | `minimum` is at most every live (non-`None`) cell, and is either `float('inf')` or the cost of some live cell |
| RipRouter.CellIndex | rip_router.py:95 | `list.index`: the first cell equal to the cost, none earlier; `None` exactly when no cell equals it |
| RipRouter.MinPort | rip_router.py:95 | `index(minimum(row))` raises ValueError exactly when every cell is `None`; otherwise it is the earliest live cell of least cost |
| RipRouter.Lists | rip_router.py:29-36 | reference definition: the advertisement for a neighbour on port `p` lists a destination exactly when it is not that neighbour, its row minimum is finite, and its minimum-cost port is not `p` |
| RipRouter.IsUpdateFor | rip_router.py:29-36 | reference definition: an advertisement holds exactly the destinations `Lists` admits, each with its row minimum |
| RipRouter.SentMeaning | rip_router.py:27-39 | the per-neighbour updates, with empty ones never sent, together hold exactly the (neighbour, destination) pairs poison reverse admits, each with the row minimum |
| RipRouter.RoutingTable.constructor | rip_router.py:62-66 | a new table has no rows, no neighbours and no destinations |
| RipRouter.RoutingTable.InitNewLink | rip_router.py:68-76 | the neighbour becomes a destination with a fresh row, cost 1 on its port, bound to that port, and every other row is padded to the port count. A port outside the row raises IndexError after the row was reset and before any binding or padding |
| RipRouter.RoutingTable.PadRows | rip_router.py:71-76 | every row becomes `Pad(old row, portCount)`; keys, neighbours and destinations are unchanged |
| RipRouter.RoutingTable.TakeLinkDown | rip_router.py:78-81 | every row's cell at `port` becomes `None` and the neighbour is unbound. A row too short raises IndexError, leaving only some rows changed. An unbound neighbour raises KeyError after all rows were changed |
| RipRouter.RoutingTable.AddDestination | rip_router.py:83-86 | the destination's row is reset to all `float('inf')`, and it is appended to `destinations` only if new |
| RipRouter.RoutingTable.AddNeighbor | rip_router.py:88-90 | on success the cell at `port` of the neighbour's row is 1 and the neighbour is bound to `port`. A missing row raises KeyError and a short row IndexError, with nothing changed |
| RipRouter.RoutingTable.ForwardingPort | rip_router.py:92-95 | an unknown destination raises KeyError and an all-`None` row ValueError; otherwise the result is the earliest live port of least cost |
| RipRouter.RoutingTable.Minimum | rip_router.py:97-104 | the loop computes `MinLive`, the least live cost |
| RipRouter.Router.constructor | rip_router.py:8-15 | the router starts with an empty routing table |
| RipRouter.Router.SendUpdates | rip_router.py:27-39 | ValueError exactly when there is a neighbour and some row is all `None`. Otherwise the sent updates go to neighbours only, are non-empty, and hold exactly the pairs poison reverse admits (both directions), each with the row minimum |
| RipRouter.Router.CollectUpdates | rip_router.py:28-39 | the neighbour loop fails exactly when a row is all `None` and there is a neighbour. Each kept update is that neighbour's `IsUpdateFor` advertisement, and each dropped one was empty |
| RipRouter.Router.BuildUpdate | rip_router.py:29-36 | the destination loop for one neighbour fails exactly when some row is all `None`; otherwise it builds that neighbour's `IsUpdateFor` advertisement |
| RipRouter.Router.Discover | rip_router.py:47-53 | a link-up makes the sender a destination, and a port beyond the port count raises IndexError. A link-down of an unbound neighbour fails; a successful one leaves it unbound |
| Common.RemoveFirst | archive/rip_router.py:131 | `s.pop(s.index(x))` removes one element |
| Common.FirstIndex | archive/rip_router.py:138 | `s.index(x)` is the position of the first element equal to `x` |
| Common.RemoveFirstAt | archive/rip_router.py:138 | when no earlier element equals `s[k]`, popping `s.index(s[k])` removes exactly position `k` |
| CostTableSpec.LinkRow | archive/rip_router.py:118-121 | reference definition of `link_table` on one row: append the record unless an equal record is already present (its properties are `LinkRowAppends` and `LinkRowIdempotent`) |
| CostTableSpec.LinkRowAppends | archive/rip_router.py:118-121 | `link_table` leaves the record in the row and only appends, at most that record |
| CostTableSpec.LinkRowIdempotent | archive/rip_router.py:118-121 | linking the same record twice equals linking it once |
| CostTableSpec.SetupRow | archive/rip_router.py:27-33 | reference definition of the inner loop of `initial_setup`: link each neighbour's seeded record in list order (its properties are `SetupRowGrows`, `SetupRowNoop` and `SetupRowIdempotent`) |
| CostTableSpec.SetupRowGrows | archive/rip_router.py:26-33 | seeding a row only appends, leaves every neighbour's seeded record (1 to itself, `inf` elsewhere) in it, and appends only such records |
| CostTableSpec.SetupRowNoop | archive/rip_router.py:26-33 | a row that already holds every seeded record is unchanged by seeding |
| CostTableSpec.SetupRowIdempotent | archive/rip_router.py:26-33 | seeding a row twice equals seeding it once |
| CostTableSpec.SetupTable | archive/rip_router.py:24-33 | `initial_setup` keeps the table's set of destinations |
| CostTableSpec.SetupTableAt | archive/rip_router.py:24-33 | after `initial_setup` a listed destination's row is its old row seeded once, even when listed twice; unlisted rows are untouched |
| CostTableSpec.InitialSetupIdempotent | archive/rip_router.py:24-33 | running `initial_setup` twice leaves the table as running it once |
| CostTableSpec.IndexOf | archive/rip_router.py:107-110 | `index_of` is the position of the first record for the neighbour, and `None` exactly when there is none |
| CostTableSpec.IndexOfAt | archive/rip_router.py:107-110 | the first record for `n` at `i` makes `index_of` return `i` |
| CostTableSpec.IndexOfExtends | archive/rip_router.py:107-110 | appending records does not move a neighbour's first record |
| CostTableSpec.RoutingCost | archive/rip_router.py:55-63 | `get_routing_cost` is `inf` for an unknown destination, `None` exactly when the row has no record for the neighbour, and otherwise the cost of its first record |
| CostTableSpec.SeededRoutingCost | archive/rip_router.py:55-63 | in a seeded row each neighbour's routing cost is its seeded cost |
| CostTableSpec.MinCost | archive/rip_router.py:52 | `min(values)` is at most every cost of the row and is one of them |
| CostTableSpec.CostIndex | archive/rip_router.py:52 | `values.index(c)` is the first position with cost `c` |
| CostTableSpec.FirstMinIndex | archive/rip_router.py:48-52 | the record `minimum_costs` picks has least cost, and every earlier record is strictly dearer, so ties go to the earliest |
| CostTableSpec.MinRecord | archive/rip_router.py:48-52 | the picked record belongs to the row and its cost is at most every record's |
| CostTableSpec.WithdrawRow | archive/rip_router.py:102-104 | reference definition of the withdrawal body for one row: pop the sender's first record only when its index is non-zero |
| CostTableSpec.Withdraw | archive/rip_router.py:99-104 | the withdrawal loop keeps the table's destinations |
| CostTableSpec.WithdrawUntouched | archive/rip_router.py:99-104 | advertised destinations, the sender's own row and unlisted ones are not touched by withdrawal |
| CostTableSpec.WithdrawKeepsIndexZero | archive/rip_router.py:102-104 | a row whose first record for the sender is at index 0, or that has none, is not touched (`if ind:`) |
| CostTableSpec.WithdrawPops | archive/rip_router.py:99-104 | for a destination listed once (other destinations may repeat), not advertised and not the sender, the sender's first record at a non-zero index is removed, and only it |
| CostTableSpec.ReceiveOne | archive/rip_router.py:84-97 | one advertised destination keeps `destinations` and the table keys in step, adds the destination, and keeps `destinations` duplicate-free |
| CostTableSpec.ReceiveAll | archive/rip_router.py:84-97 | the first loop adds exactly the advertised destinations and keeps `destinations` in step with the table |
| CostTableSpec.Updated | archive/rip_router.py:83-104 | reference definition of `update_table`: the first loop in the given order, then withdrawal over the destinations then listed (its properties are the `Update*` lemmas) |
| CostTableSpec.ReceiveOneOther | archive/rip_router.py:84-97 | another known row is untouched, or seeded when the advertised destination was unknown |
| CostTableSpec.ReceiveOneInstalls | archive/rip_router.py:90-95 | a known destination's first record for the sender takes cost `1 + advertised` at the same index, and the flag says whether it already had it |
| CostTableSpec.ReceiveOneSeeds | archive/rip_router.py:85-87 | an unknown destination gets a row of exactly the seeded records, and the flag is cleared |
| CostTableSpec.ReceiveAllExtends | archive/rip_router.py:84-97 | a known, unadvertised row keeps its old records as a prefix, and anything added is a seeded record |
| CostTableSpec.ReceiveAllInstalls | archive/rip_router.py:84-97 | after the first loop an advertised known destination's first record for the sender has cost `1 + paths[dest]` |
| CostTableSpec.ReceiveAllSeedsUnknown | archive/rip_router.py:84-97 | after the first loop an advertised unknown destination holds exactly the seeded records, one per neighbour |
| CostTableSpec.SeedingKeepsSeeded | archive/rip_router.py:24-33 | re-seeding a fully seeded row keeps it fully seeded |
| CostTableSpec.UpdateInstallsCost | archive/rip_router.py:83-104 | after `update_table`, `get_routing_cost(dest, src)` for an advertised known destination with a record for `src` is `1 + paths[dest]` |
| CostTableSpec.UpdateSeedsUnknown | archive/rip_router.py:83-104 | after `update_table` an advertised unknown destination is known, and each neighbour's routing cost to it is the seeded cost, whatever was advertised |
| CostTableSpec.ReceiveOneFlag | archive/rip_router.py:85-97 | one advertised destination clears the flag if unknown; with no record for the sender the caught `TypeError` leaves the whole state unchanged; otherwise the flag says whether the record already had cost `1 + advertised` |
| CostTableSpec.UpdateConvergedFlag | archive/rip_router.py:83-97 | the flag is false if the last advertised destination was unknown; if it was known with a record via `src`, the flag says whether that record already had cost `1 + paths[last]` |
| CostTableSpec.UpdateConvergedFlagMid | archive/rip_router.py:83-97 | an empty advertisement leaves the flag as it was. If the last advertised destination was known and, after the earlier ones, has no record via `src`, the flag is the one those earlier destinations left. If it has one, the flag says whether it already had cost `1 + paths[last]` |
| CostTableSpec.UpdateKeepsIndexZero | archive/rip_router.py:99-104 | an unadvertised route via the sender held at index 0 survives `update_table` unchanged |
| CostTableSpec.UpdateWithdraws | archive/rip_router.py:83-104 | for a destination listed once, an unadvertised route via the sender at a non-zero index is removed by `update_table`, and the rest of the row is kept |
| CostTableSpec.ReceiveOneKeepsCount | archive/rip_router.py:85-87 | handling one advertised destination lists each known destination as often as before |
| CostTableSpec.ReceiveAllKeepsCount | archive/rip_router.py:84-97 | the first loop lists each known destination as often as before, since it only appends new ones |
| CostTableSpec.Sweep | archive/rip_router.py:136-138 | reference definition of the pop-while-iterating loop for one row: the iterator index moves on after each pop while later records shift left under it (its properties are the `Sweep*` lemmas) |
| CostTableSpec.Others | archive/rip_router.py:134-138 | the records kept for other neighbours come from the row and are not the dropped neighbour's |
| CostTableSpec.RemoveFirstKeepsOthers | archive/rip_router.py:138 | popping one of the dropped neighbour's records keeps the other neighbours' records in order |
| CostTableSpec.SweepKeepsOthers | archive/rip_router.py:136-138 | the popping loop never removes or reorders another neighbour's record |
| CostTableSpec.SweepClearsApart | archive/rip_router.py:136-138 | when no two records of the dropped neighbour are adjacent, the loop removes all of them |
| CostTableSpec.SweepKeepsSome | archive/rip_router.py:136-138 | once the loop has passed a record of the dropped neighbour, or has two adjacent ones still ahead, some record of that neighbour survives |
| CostTableSpec.SweepKeepsAdjacent | archive/rip_router.py:136-138 | a row with two adjacent records of the dropped neighbour keeps at least one of that neighbour's records |
| CostTableSpec.SweepClearsIffApart | archive/rip_router.py:136-138 | the loop removes every record of the dropped neighbour exactly when no two of them are adjacent |
| CostTableSpec.SweepSkipsAdjacent | archive/rip_router.py:136-138 | example: from the row `[n:3, n:inf]` the loop leaves `[n:inf]` |
| CostTableSpec.DropFromTable | archive/rip_router.py:134-138 | `del_neighbor_from_table` keeps every destination |
| CostTableSpec.DropNeighborRecords | archive/rip_router.py:134-138 | the neighbour's own row is untouched, other neighbours' records are kept in order, and another row loses all the neighbour's records exactly when no two of them are adjacent |
| CostTableSpec.IsAdvertisement | archive/rip_router.py:192-201 | reference definition: the advertisement for a neighbour holds exactly the destinations whose minimum record is not via that neighbour, each with that record's cost |
| CostTableSpec.AdvertisedCostIsMinimum | archive/rip_router.py:192-201 | every advertised cost is the least cost of its destination and is offered by a record via another neighbour |
| ArchiveRipRouter.CostTable.constructor | archive/rip_router.py:11-17 | a new table is empty and not converged |
| ArchiveRipRouter.CostTable.LinkUp | archive/rip_router.py:19-22 | the source is appended to neighbours and destinations, with an empty row and its port |
| ArchiveRipRouter.CostTable.InitialSetup | archive/rip_router.py:24-33 | the table becomes `SetupTable` of the old one, and the flag is cleared |
| ArchiveRipRouter.CostTable.SetupDestination | archive/rip_router.py:27-33 | one destination's row becomes its seeded row; the other rows are untouched |
| ArchiveRipRouter.CostTable.LinkDown | archive/rip_router.py:35-38 | an unknown neighbour raises ValueError with nothing changed. Otherwise its first entry is popped and the table becomes `DropFromTable`. A missing port then raises KeyError; otherwise the port is deleted and the flag cleared |
| ArchiveRipRouter.CostTable.MinimumCosts | archive/rip_router.py:40-53 | ValueError exactly when some row is empty; otherwise each destination maps to its `MinRecord` |
| ArchiveRipRouter.CostTable.GetRoutingCost | archive/rip_router.py:55-63 | the loop returns `RoutingCost` |
| ArchiveRipRouter.CostTable.HandleUnknownDest | archive/rip_router.py:65-67 | the destination is appended with an empty row, then the whole table is re-seeded and the flag cleared |
| ArchiveRipRouter.CostTable.UpdateTable | archive/rip_router.py:83-104 | the new table, destinations and flag are `Updated(old state)` for the given iteration order |
| ArchiveRipRouter.CostTable.ReceivePaths | archive/rip_router.py:84-97 | the first loop leaves `ReceiveAll(old state)` |
| ArchiveRipRouter.CostTable.ReceivePath | archive/rip_router.py:85-97 | one advertised destination leaves `ReceiveOne(old state)` |
| ArchiveRipRouter.CostTable.WithdrawRoutes | archive/rip_router.py:99-104 | the withdrawal loop leaves `Withdraw(old table)` |
| ArchiveRipRouter.CostTable.WithdrawFrom | archive/rip_router.py:102-104 | one row becomes `WithdrawRow` of itself |
| ArchiveRipRouter.CostTable.IndexOfNeighbor | archive/rip_router.py:107-110 | the loop returns `IndexOf` |
| ArchiveRipRouter.CostTable.LinkTable | archive/rip_router.py:118-121 | the destination's row becomes `LinkRow` of it |
| ArchiveRipRouter.CostTable.AddDestination | archive/rip_router.py:123-125 | the destination is appended and its row reset to empty |
| ArchiveRipRouter.CostTable.AddNeighbor | archive/rip_router.py:127-128 | the neighbour is appended |
| ArchiveRipRouter.CostTable.DelNeighbor | archive/rip_router.py:130-132 | an absent neighbour raises ValueError with nothing changed; otherwise its first entry is popped and the table becomes `DropFromTable` |
| ArchiveRipRouter.CostTable.DelNeighborFromTable | archive/rip_router.py:134-138 | the loop over all rows leaves `DropFromTable(old table)` |
| ArchiveRipRouter.CostTable.SweepRow | archive/rip_router.py:136-138 | one row other than the neighbour's own becomes its `Sweep` |
| ArchiveRipRouter.CostTable.AddPort | archive/rip_router.py:140-141 | the port is bound |
| ArchiveRipRouter.CostTable.DelPort | archive/rip_router.py:143-144 | the port is unbound; a missing one raises KeyError and changes nothing |
| ArchiveRipRouter.CostTable.GetPort | archive/rip_router.py:146-150 | `None` exactly when the destination has no port; otherwise its port |
| ArchiveRipRouter.Router.constructor | archive/rip_router.py:153-156 | the router starts with an empty table, no paths and an empty update |
| ArchiveRipRouter.Router.ForwardTo | archive/rip_router.py:220-224 | `None` exactly when there is no path; otherwise the next hop |
| ArchiveRipRouter.Router.MakePaths2 | archive/rip_router.py:177-181 | ValueError, with paths emptied, exactly when some row is empty; otherwise every known destination's next hop is its minimum record's neighbour, and no other destination has one |
| ArchiveRipRouter.Router.MakeUpdate2 | archive/rip_router.py:192-201 | ValueError exactly when some row is empty; otherwise the advertisement for the neighbour (`IsAdvertisement`) |
| ArchiveRipRouter.Router.OrganizeUpdates | archive/rip_router.py:183-190 | ValueError, with the stored updates unchanged, exactly when there is a neighbour and some row is empty; otherwise one advertisement per listed neighbour and no other |

## Left out

- Simulator plumbing is not modelled. This covers packet dispatch (`handle_rx`, `packet_actions`), sending (`send`, `send_packet`, `hand_off`, `send_update`, `send_update2`) and its port lookup, and the `Entity` base class. `SendUpdates` returns the updates it would send, keyed by neighbour, instead of sending them.
- `print` calls and `__repr__` are not modelled, since they are output only. The same goes for the `update` and `forward` packet handlers of the current router, which only print.
- `RIPRouter.make_paths` and `RIPRouter.make_update` of the archived router are not modelled. `make_paths2` and `make_update2` replace them.
- The commented-out `update_table` and `check_convergence` of the archived router are not modelled.
- The one-line `RIPRouter` delegates of the archived router (`initial_setup`, `link_up`, `link_down`, `get_port`, `save_port`, `has_table_converged`) are not modelled separately. Each only calls or reads the `CostTable` member modelled above.
- The archived router's handlers `discover`, `update_routes` and `cleanup` are not modelled. They only sequence modelled operations (`initial_setup`, `update_table`, `organize_updates`, `make_paths2`) with sending, which is simulator I/O.
- The `owner` / `who` back-pointer is not modelled. `get_port_count()` is a `portCount` parameter of each call that reads it: the simulator supplies it, and the router re-reads it on every call.
- The simulator's `RoutingUpdate` packet is modelled as its `paths` dictionary, `map<NodeId, Cost>`. The archived router's initial `RoutingUpdate()` in `self.update` is modelled as the empty map.
- Node names are an abstract type with equality, because the routing code only compares them.
- Dictionary iteration order is not modelled. It is an explicit `order` parameter of `UpdateTable`; elsewhere it is an arbitrary choice that the contracts hold for.
- The archived `CostTable` has no operation to delete a destination, so the model has none.
- Python 2's `keys()[0]` on a one-entry dictionary is modelled as the record's `neighbor` field. `values()[0]` is its `cost` field.
- A cost that is not a number or `float('inf')` cannot be represented. Costs are hop counts or infinity, and the model cannot produce the `TypeError` that `update_table` catches on one. The only `TypeError` it can produce is indexing with `index_of`'s `None` result, which `ReceiveOne` models as leaving the state unchanged.
- CostTableSpec.WithdrawPops: states the withdrawal only for a destination listed once; other destinations may repeat. `link_up` appends without checking, so a destination listed several times can lose a record via the sender once per listing; that case is not stated.
- CostTableSpec.UpdateWithdraws: states the withdrawal only for a destination listed once, for the same reason as `WithdrawPops`.
- RipRouter.Router.Discover: states only which error each notice can raise and the membership facts. The new table is stated by `InitNewLink` and `TakeLinkDown`, and the advertisements by `SendUpdates`.
