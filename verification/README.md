# goedb: a verified model of its storage and traversal core

goedb keeps a directed multigraph in fixed-size records. Every relationship
record is a member of two circular doubly linked lists, one for its source node
and one for its target node, and a record's id is its position on disk. This
project models that core in Dafny and proves what the rest of the database
depends on:

* the incidence lists of all nodes are rings, through self-loops and parallel
  edges, after creation (copy out, patch, write back once), sorting, swapping and
  reordering, and after deletion in exactly the states that are named;
* reordering and swapping are graph isomorphisms, and no traversal can tell the
  difference;
* the heap file and the in-memory graph build the same graph;
* the slot allocator works on the header bytes themselves and is first fit, the
  hash table is a map, and the page cache is invisible, with and without bulk import;
* Dijkstra, breadth-first search and A* return what they promise, over all walks.

Where a promise fails for some states, the exact condition is proved as an
equivalence, and a concrete input shows the failure: deletion, deletion right
after creation and after sorting, swapping of nodes, reordering a file with gaps
or without relationships, sorting with self-loops, wide bit writes, and eviction
after bulk import.

## How it is organised

| files | content |
|---|---|
| `Graph.dfy`, `Linking.dfy` | records, rings, insertion and removal on the whole store |
| `HeaderPage.dfy`, `BitWrites.dfy`, `Slots.dfy` | bit arrays, writing bits, the slot allocator on header pages |
| `HeapFile.dfy`, `InMemoryGraph.dfy`, `Runs.dfy` | the two implementations, and runs of operations |
| `Expansion.dfy`, `Walks.dfy`, `Forest.dfy`, `Dijkstra.dfy`, `Bfs.dfy`, `AStar.dfy` | ring walks and traversals |
| `Renaming.dfy`, `Swap.dfy`, `SwapNodes.dfy`, `Reorder.dfy`, `Scratch.dfy`, `Orders.dfy`, `SortRings.dfy`, `StaleSides.dfy`, `Meaning.dfy`, `Limits.dfy` | isomorphism, the operations that move records, deletion after sorting, and inputs on which operations fail |
| `HashTable.dfy` | the chained hash table |
| `CacheState.dfy`, `CacheEffects.dfy`, `PageCache.dfy` | the page cache |

The central invariant is `Graph.WellFormed(s, ring)`: the ghost map `ring` gives
every node its ring, which holds exactly its live relationships once each, starts
at `first_relationship`, and has prev inverse to next on the side that a walk
round the node follows (the source side of a self-loop). The two sides of a
self-loop agree.

Imperative code is modelled by classes and methods with loops. Each is proved
equal to a function of the old state, and the properties are lemmas about that
function.

Conventions: pages have 4096 bytes and 256 slots. The marker for "no id" is
`None`. A weight is an integer, the multiple of 2^-1074 that the double is. The
guards that end the program are preconditions, or a result `None` or `false`
where the outcome depends on the state. Random numbers, hash functions and the
order in which a priority queue hands out its elements are arbitrary.

## Model

| member | source | states |
|---|---|---|
| `Graph.WalkVisitsRing` | src/access/heap_file.c:969-1031 | following next from the first relationship i times reaches the i-th member of the ring |
| `Graph.WalkCloses` | src/access/heap_file.c:969-1031 | after as many steps as there are members the walk is back at the start |
| `Graph.RingsUnique` | src/access/heap_file.c:434-571 | the pointers of a store determine all its rings |
| `Graph.RingNeighbours` | src/access/heap_file.c:434-571 | the neighbours of a member are live, in the same ring, and point back |
| `Graph.StoreDetermined` | src/access/heap_file.c:434-571 | rings and payload (ends, weights, labels) together determine the whole store |
| `Linking.InsertKeepsWellFormed` | src/access/heap_file.c:434-571 | a creation appends the new id to the rings of both endpoints (once for a self-loop) and leaves every other ring as it was |
| `Linking.RemoveKeepsWellFormed` | src/access/heap_file.c:732-835 | a deletion with company at the source or none at the target takes exactly that id out of its rings, keeps the order of the rest and touches no other ring |
| `Linking.RemoveTouches` | src/access/heap_file.c:732-872 | in every state, deletion changes no record but the neighbours, no ends, weights or labels, nothing at all where the record precedes itself at its source, and of the nodes only where their lists start |
| `Linking.RemoveCorrectIff` | src/access/heap_file.c:732-835 | deletion leaves a store with rings if and only if prev_rel_source is another record or prev_rel_target is the record itself |
| `Linking.RemoveRingsIff` | src/access/heap_file.c:732-835 | the same in any store with rings, as sorting leaves it, for a record whose own two sides agree |
| `Linking.RemovableByRings` | src/access/heap_file.c:734 | that condition in terms of rings: at least two members at the source, or one at the target |
| `Linking.RemoveDangles` | src/access/heap_file.c:734-812 | in the other states some live neighbour keeps pointing at the deleted id |
| `Linking.InsertThenRemove` | src/access/heap_file.c:721-872 | deleting a relationship right after creating it restores the store, record by record, if and only if its source had other relationships or its target had none |
| `Linking.InsertedRemovableIff` | src/access/heap_file.c:734 | that is when the guard lets the new relationship be unlinked |
| `Limits.CreateThenDeleteStrands` | src/access/heap_file.c:734 | a store in which creating and deleting a relationship breaks the rings |
| `Limits.DeleteStrandsTarget` | src/access/heap_file.c:734 | a store of three nodes and two relationships whose rings a deletion breaks |
| `Slots.SlotFile.NextFreeSlots` | src/access/heap_file.c:141-226 | takes the first free record position from the scan start, which is the least free one when there is no gap below the scan start; no other record changes; the file grows by a page only when the position is beyond its end |
| `Slots.SlotFile.ScanForFree` | src/access/heap_file.c:158-181 | every record position between the scan start and the result is taken |
| `Slots.SlotFile.Release` | src/access/heap_file.c:842-869 | clears one record and moves the scan start down to it if it lies lower, so that no gap is below |
| `Slots.SlotFile.CheckRecordExists` | src/access/heap_file.c:94-138 | comparing the bits on the header page is true exactly for live record ids |
| `Slots.SlotFile.WriteRecordBits` | src/access/heap_file.c:203-225 | writing the bits of one position to its header page adds or removes exactly that record |
| `Slots.RewrittenRecords` | src/access/heap_file.c:203-225 | after such a write the header bytes record exactly the new set of records |
| `Slots.BlankRecords` | src/io/physical_database.c:351-361 | header pages added blank record nothing |
| `Slots.SlotFile.Records` | src/access/heap_file.c:875-966 | lists exactly the live ids, ascending |
| `Slots.SlotFile.AllocatePages` | src/io/physical_database.c:344-368 | header bits stay equal to slots plus remaining bits, and header pages grow only when their bits ran out |
| `Slots.SlotFile.HeaderPageExists` | src/access/heap_file.c:121-127 | every slot of the file has its bit on an existing header page |
| `Slots.HeaderGrowthSuffices` | src/io/physical_database.c:351-363 | the computed number of header pages holds the missing bits, and one page less does not |
| `HeapFile.HeapFile.CreateNode` | src/access/heap_file.c:385-415 | the least free id becomes a node with an empty ring; everything else is unchanged |
| `HeapFile.HeapFile.LoadEnds` | src/access/heap_file.c:447-497 | finds first and last of both lists with one copy per distinct record, the new record standing in for an empty list |
| `HeapFile.HeapFile.StoreRelationship` | src/access/heap_file.c:434-583 | copy-out, patch and copy-in is the in-place insertion; each distinct neighbour is written back exactly once |
| `HeapFile.HeapFile.CreateRelationship` | src/access/heap_file.c:418-583 | the rings after a creation, at a fresh aligned id, the least free one |
| `HeapFile.HeapFile.EraseRelationship` | src/access/heap_file.c:721-872 | the copies of up to four neighbours, aliased or not, produce the removal on the whole store: no record but the four neighbours changes, no payload changes, and where the guard skips relinking nothing changes but that the record is gone |
| `HeapFile.HeapFile.DropRecord` | src/access/heap_file.c:732-835 | each distinct neighbour is written back exactly once, and none where the guard skips relinking |
| `HeapFile.HeapFile.DeleteRelationship` | src/access/heap_file.c:721-872 | in every state no record but the neighbours changes, nor any payload, and no record at all where the guard skips relinking; rings are left behind, the old ones without the record, if and only if it was removable |
| `InMemoryGraph.InMemoryGraph.CreateNode` | src/access/in_memory_graph.c:54-72 | the next number becomes a node with an empty ring |
| `InMemoryGraph.InMemoryGraph.StoreRelationship` | src/access/in_memory_graph.c:188-299 | patching records in place is the insertion on the whole store |
| `InMemoryGraph.InMemoryGraph.CreateRelationship` | src/access/in_memory_graph.c:165-302 | the rings after a creation at the next number |
| `Runs.RunKeepsRings` | src/access/heap_file.c:385-583 | after every run of creations and deletions each ring lists the node's live relationships in creation order |
| `Runs.BuiltWellFormed` | src/access/heap_file.c:418-583 | every sequence of creations builds a well-formed store with dense ids |
| `Runs.BuiltIsomorphic` | src/access/in_memory_graph.c:165-302 | for every sequence of creations the heap file's store is the in-memory store with relationship ids times four |
| `Runs.RunInMemory` | src/access/in_memory_graph.c:54-302 | the in-memory methods build that store |
| `Runs.RunHeapFile` | src/access/heap_file.c:385-583 | the heap file methods build that store |
| `Runs.RunWithDeletions` | src/access/heap_file.c:385-872 | any sequence of creations and deletions on a new heap file, up to the first that cannot be carried out cleanly: ids are the least free ones, and rings list the live relationships in creation order |
| `Expansion.NextRelationshipId` | src/access/heap_file.c:984-1030 | the next member that matches the direction, going round, or none exactly when no other member matches; terminates on every ring |
| `Expansion.CollectFrom` | src/access/heap_file.c:1066-1077 | from the first match on, the matching members in ring order |
| `Expansion.Expand` | src/access/heap_file.c:1034-1078 | the matching part of the ring, in ring order |
| `Expansion.SelectedInOrder` | src/access/heap_file.c:1066-1077 | the relationships listed keep the order of the ring |
| `Expansion.ExpansionExact` | src/access/heap_file.c:1034-1078 | that part is exactly the node's relationships in the direction, each once |
| `InMemoryGraph.NextRelationshipId` | src/access/in_memory_graph.c:305-337 | the same next match in memory |
| `InMemoryGraph.Expand` | src/access/in_memory_graph.c:340-393 | the same part of the ring in memory |
| `Renaming.RenamedUnique` | src/order/reorder_records.c:186-399 | a renaming determines the renamed store |
| `Renaming.RenamedCompose` | src/order/reorder_records.c:554-610 | renamings compose |
| `Renaming.RenamedRing` | src/order/reorder_records.c:186-399 | a ring of a store, renamed member by member, is a ring of the renamed store |
| `Renaming.RenamedWellFormed` | src/order/reorder_records.c:186-399 | a renamed well-formed store is well formed with the renamed rings |
| `Renaming.RenamedInsert` | src/access/in_memory_graph.c:188-299 | insertion commutes with renaming |
| `Swap.PointersAreMutual` | src/order/reorder_records.c:221-273 | whoever points at a record is among the records it points at, so the neighbour lists cover every pointer |
| `Swap.RewritingCovers` | src/order/reorder_records.c:276-320 | rewriting the listed records and nodes rewrites every pointer to either id |
| `Swap.RewritePointers` | src/order/reorder_records.c:276-305 | each listed record has its four pointers renamed, no other record changes |
| `Swap.SwappableGuard` | src/order/reorder_records.c:192-199 | the guard on arguments, a test by wrap-around, is that a record at the id stays within its page |
| `Swap.MoveRecords` | src/order/reorder_records.c:325-398 | the two records change places, an empty place moving like a record, and the slot bits follow; the program ends exactly if one id is no record position |
| `Swap.SwapRelationships` | src/order/reorder_records.c:186-399 | gets through if and only if nothing has to move or both ids are record positions, and then is exactly the transposition of the two ids on the whole store, also when one slot is empty, with the rings renamed; otherwise the pointers have been rewritten and no record has moved |
| `Swap.SwapTwice` | src/order/reorder_records.c:186-399 | swapping twice is the identity |
| `SwapNodes.CollectIncident` | src/order/reorder_records.c:61-80 | the relationships of both nodes, each once |
| `SwapNodes.SwapNodeIds` | src/order/reorder_records.c:35-183 | the node records change places in every case, an unused place moving like a record; the endpoints of all relationships follow if and only if the second id is in use |
| `SwapNodes.SwapIsTransposition` | src/order/reorder_records.c:69-98 | the transposition of the two node ids on the whole store when the second id exists or the first has no relationships |
| `SwapNodes.SwapCorrectIff` | src/order/reorder_records.c:69-98 | rings survive the swap if and only if that condition holds |
| `SwapNodes.SwapNodesTwice` | src/order/reorder_records.c:35-183 | swapping two live nodes twice is the identity |
| `Limits.SwapStrandsRelationships` | src/order/reorder_records.c:69-98 | a store on which swapping a node with a free id breaks the rings |
| `Limits.LastSlotSkipped` | src/order/reorder_records.c:493-498 | the loop that reorders nodes visits 255 positions a page and never the last slot |
| `Reorder.Invert` | src/order/reorder_records.c:554-563 | the second dictionary is the inverse of the first |
| `Reorder.SettleDicts` | src/order/reorder_records.c:575-596 | dropping the settled entry and redirecting the displaced one; fails exactly when that entry is missing |
| `Reorder.SettleKeepsInverse` | src/order/reorder_records.c:575-596 | the two dictionaries stay inverse to each other |
| `Reorder.SettleFollowsSwap` | src/order/reorder_records.c:573-596 | what the dictionary still asks for, after the swap, is what it asked for before |
| `Reorder.NextPosition` | src/order/reorder_records.c:603-608 | the visited positions are four slots apart, across page boundaries |
| `Reorder.VisitSettles` | src/order/reorder_records.c:569-609 | the loop gets through exactly when every target position it meets is a listed record, and then the dictionary keeps just the entries whose targets it does not visit |
| `Reorder.VisitProgress` | src/order/reorder_records.c:569-609 | at every step the store is the original one renamed by what has been done, and the dictionaries are inverse |
| `Reorder.VisitPositions` | src/order/reorder_records.c:569-609 | the loop over pages and slots computes that visit |
| `Reorder.ReorderRelationships` | src/order/reorder_records.c:543-611 | for any one-to-one dictionary on some or all relationships: it gets through if and only if the targets among the first n_rels positions are listed; then those targets have their records, every pointer and the rings renamed alike; entries are left if and only if there are other targets; with none left every record is at its prescribed id |
| `Limits.CycleLeftUndone` | src/order/reorder_records.c:569-609 | for every store with relationships 0, 16 and 32, a permutation of them at whose end two are out of place without an error |
| `Scratch.ScratchOpens` | src/cache/page_cache.c:199-211 | a cache with as many frames as header pages serves the first page asked for if and only if it has a frame |
| `Scratch.OpenScratch` | src/order/reorder_records.c:659-668 | opening the scratch file goes through if and only if there are relationships |
| `Orders.NumberSequence` | src/order/reorder_records.c:659-677 | fails exactly on the empty sequence; otherwise the scratch allocator numbers it 0, 4, 8 and so on |
| `Orders.OrderReady` | src/order/reorder_records.c:670-682 | any enumeration of the live relationships, so numbered, is a dictionary the reorderer accepts, with no target beyond the positions it visits, and all targets listed exactly when the file has no gaps |
| `Orders.ReorderBySequence` | src/order/reorder_records.c:647-683 | gets through if and only if there are relationships and the file has no gaps; the i-th relationship of the sequence then is at the i-th record position, everything renamed alike |
| `Orders.OutgoingEnumerates` | src/order/reorder_records.c:627-638 | the outgoing expansions of all nodes, one after another, are a permutation of the live relationships |
| `Orders.OutgoingFits` | src/order/reorder_records.c:627-638 | no part of them overruns an array of n_rels entries |
| `Orders.CollectOutgoing` | src/order/reorder_records.c:627-638 | the array is filled exactly, with the outgoing expansions node after node in file order |
| `Orders.OutgoingGrouped` | src/order/reorder_records.c:627-638 | in that list the source nodes do not fall |
| `Orders.ReorderByNodes` | src/order/reorder_records.c:614-644 | gets through if and only if there are relationships and the file has no gaps; a renaming by exactly that list; afterwards the records at ascending positions have ascending source nodes |
| `Orders.ExchangeValuesPermutes` | src/order/random_order.c:133-143 | exchanging two entries of a permutation gives a permutation |
| `Orders.IdentityOrder` | src/order/random_order.c:51-74 | the identity on the live ids |
| `Orders.RandomRelationshipOrder` | src/order/random_order.c:114-149 | a permutation of the live relationship ids: what the draws make of the identity, iteration i exchanging the entry of the i-th id with that of the one drawn and no others |
| `Orders.RandomNodeOrder` | src/order/random_order.c:77-111 | the same for nodes |
| `Orders.EveryShuffle` | src/order/random_order.c:133-143 | every permutation of the ids is the outcome of some draws |
| `Orders.ShuffleDetermined` | src/order/random_order.c:133-143 | the draws settle the outcome |
| `Orders.PermutesReady` | src/order/random_order.c:114-149 | a permutation is one to one and its targets are live, as the reorderer needs |
| `Orders.ShuffleFinishesIff` | src/order/reorder_records.c:566-609 | the reorderer gets through every shuffle, and places all relationships if and only if the file has no gaps |
| `SortRings.SortIds` | src/order/reorder_records.c:717-738 | the ids in ascending order, each once |
| `SortRings.Relink` | src/order/reorder_records.c:740-777 | first, middle and last member get their cyclic neighbours on the side that belongs to the node |
| `SortRings.OtherRing` | src/order/reorder_records.c:740-777 | relinking one node's list disturbs no other node's ring |
| `SortRings.ArrangedRings` | src/order/reorder_records.c:740-777 | one ring a node again, the sorted one turned to start where it started before |
| `SortRings.RotatedDescent` | src/order/reorder_records.c:735-738 | a turned ascending ring descends at exactly one place |
| `SortRings.SortNode` | src/order/reorder_records.c:706-782 | one node's ring is sorted, or left alone below three members |
| `SortRings.SortIncidenceLists` | src/order/reorder_records.c:686-784 | for every node the same members, the same start, and one descent if there are three or more; the records determined by the ids in the old rings; self-loop sides in agreement if and only if the condition below holds |
| `SortRings.SortCoherentIff` | src/order/reorder_records.c:743-777 | after sorting all nodes the store is well formed again if and only if each self-loop at a node with three or more relationships stood, in the old ring, between its neighbours by id |
| `SortRings.NoLoopsInOrder` | src/order/reorder_records.c:743-777 | in particular when no node with three or more relationships has a self-loop |
| `SortRings.StoreSortedUnique` | src/order/reorder_records.c:706-782 | the outcome of sorting is determined |
| `SortRings.RelsSortedNext` | src/order/reorder_records.c:706-782 | sorting one node more rewrites exactly the sides that belong to it |
| `Limits.SortThenDeleteStrands` | src/order/reorder_records.c:743-777 | a store with a self-loop that sorting leaves with disagreeing sides, so that a deletion the guard admits then breaks a ring |
| `StaleSides.RemoveAnyRingsIff` | src/access/heap_file.c:732-835 | from any store with rings, sorted or not, deletion leaves rings if and only if the record's sides agree and the guard admits it, or they disagree and it is alone on its list, or the records on its target side are off the list or become neighbours anyway; the rings are then the old ones without it |
| `StaleSides.RemoveNonLoopIff` | src/access/heap_file.c:732-835 | for a relationship between different nodes that is the guard, after sorting as before |
| `Meaning.SelectedRenamed` | src/order/reorder_records.c:543-611 | expansion commutes with renaming |
| `Meaning.WalkRenamed` | src/order/reorder_records.c:543-611 | walks and their costs carry over to a renamed store |
| `Meaning.WalkUnrenamed` | src/order/reorder_records.c:543-611 | every walk of the renamed store comes from one of the original |
| `Meaning.DistancesRenamed` | src/order/reorder_records.c:186-399 | reachability, shortest distances and hop counts are the same before and after |
| `Meaning.ReorderKeepsDistances` | src/order/reorder_records.c:543-611 | in particular for reordering |
| `Meaning.ExpansionsAgree` | src/access/in_memory_graph.c:340-393 | after the same creations the lists that the two expansions return are the same, up to the spacing of ids |
| `Meaning.DistancesAgree` | src/access/in_memory_graph.c:165-302 | and have the same distances |
| `Walks.ClosedLabelsExact` | src/query/dijkstra.c:56-94 | labels that belong to walks and that no relationship improves are least costs, and infinite just for unreachable nodes |
| `Walks.RelabelProgress` | src/query/dijkstra.c:84-90 | a first or smaller label lowers the termination measure |
| `Walks.HopsAreLength` | src/query/bfs.c:82-85 | counted in hops, a walk costs its length |
| `Forest.SetParent` | src/query/dijkstra.c:84-90 | giving a node a smaller distance and a parent keeps all parent edges falling, in distance or in age |
| `Forest.ParentsSpell` | src/query/result_types.c:183-193 | the parent edges back from a node are a walk from the source whose cost is the node's distance |
| `Dijkstra.RelaxAllSound` | src/query/dijkstra.c:66-91 | relaxing a node's relationships keeps labels attained and parents consistent, and leaves no improvement |
| `Dijkstra.ProcessKeepsClosed` | src/query/dijkstra.c:56-94 | nodes outside the queue offer no improvement, whichever node is taken out |
| `Dijkstra.Run` | src/query/dijkstra.c:29-100 | terminates with the least weight over all walks in the direction, infinity exactly for unreachable nodes, and parent edges that spell a shortest walk from the source, also with zero weights, for any extraction order |
| `Bfs.ProcessKeeps` | src/query/bfs.c:56-90 | the queue holds nodes of at most two consecutive levels, in order |
| `Bfs.Run` | src/query/bfs.c:28-96 | least hop counts, unreachable nodes at the maximum, each parent edge exactly one level, and parent edges that spell a walk of as many hops |
| `AStar.RelaxFalls` | src/query/a-star.c:86-97 | along parent edges the stored distance falls, or stays and the parent was settled earlier |
| `AStar.Run` | src/query/a-star.c:29-110 | with non-negative weights and heuristic and any extraction order: fails for equal endpoints, and otherwise only when the heuristic lacks a node to be expanded; reports infinity exactly for an unreachable target, and else a walk from source to target in the direction with the sum of its weights; with least keys first, a walk whose weights and heuristics have the least sum of all, so the least weight for a zero heuristic |
| `AStar.Search` | src/query/a-star.c:48-101 | every stored distance is the guided sum of a walk, and no relationship of a node that is not queued with its present distance offers a smaller one |
| `AStar.RelaxAllSound` | src/query/a-star.c:76-98 | relaxing a node's relationships keeps distances attained and parents consistent |
| `AStar.RelaxAllCloses` | src/query/a-star.c:76-98 | and leaves no improvement |
| `AStar.WalkFrom` | src/query/a-star.c:54-62 | when everything open is at least k away, so is what any walk goes on to |
| `AStar.ConstructPath` | src/query/result_types.c:167-211 | fails exactly when the target has no parent; otherwise terminates with the walk along parent edges and the sum of its weights |
| `AStar.ExtractVertices` | src/query/result_types.c:214-244 | the vertices met along the edges, in order |
| `AStar.VerticesSkip` | src/query/result_types.c:236-240 | an edge that does not touch the last vertex adds none |
| `AStar.VerticesOfWalk` | src/query/result_types.c:214-244 | for a walk: one more than edges, consecutive ones joined by their edge, ending at the target |
| `HashTable.LookupPut` | include/data-struct/htable.h:247-325 | a chain after an insertion answers the new value for the key and the old ones otherwise |
| `HashTable.LookupDrop` | include/data-struct/htable.h:340-402 | and after a removal |
| `HashTable.RehashFind` | include/data-struct/htable.h:110-153 | moving all entries to a larger table changes no lookup |
| `HashTable.EntriesEnumerate` | include/data-struct/htable.h:487-515 | the entries bucket by bucket are the pairs of the map, each once |
| `HashTable.Table.Get` | include/data-struct/htable.h:404-429 | the lookup of the map |
| `HashTable.Table.AddToBucket` | include/data-struct/htable.h:247-325 | overwrite or append in the key's chain, counting only new keys |
| `HashTable.Table.Rehash` | include/data-struct/htable.h:110-153 | doubles exactly when the filling limit is reached, and represents the same map with the same size |
| `HashTable.RoomForOneMore` | include/data-struct/htable.h:113-118 | doubling keeps fewer entries than 0.6F of the buckets, as long as there are not too many to double |
| `HashTable.Table.Insert` | include/data-struct/htable.h:327-338 | represents the updated map, and num_used is its size |
| `HashTable.Table.Remove` | include/data-struct/htable.h:340-402 | found exactly for keys of the map; represents the map without the key |
| `HashTable.Iterator.Next` | include/data-struct/htable.h:487-515 | hands out the remaining entries one by one and ends exactly when none remain |
| `HeaderPage.ShiftRightDivides` | src/access/header_page.c:111-118 | a right shift of any length divides the big-endian number by a power of two |
| `HeaderPage.ShiftLeftMultiplies` | src/access/header_page.c:119-128 | a left shift multiplies it, modulo the array's size |
| `HeaderPage.ShiftBitArray` | src/access/header_page.c:84-129 | the loops with a carry compute these shifts in place and leave other bytes alone |
| `HeaderPage.CompareBits` | src/access/header_page.c:26-78 | true exactly when the addressed bits, in one byte or across two, equal the mask's low bits |
| `BitWrites.WriteBits` | src/access/header_page.c:399-459 | the page after a write of any number of bits within it |
| `BitWrites.WrittenBit` | src/access/header_page.c:399-459 | every bit of that page: the data in the field, elsewhere the old bit, unless it is behind the field in a last byte whose tail is lost |
| `BitWrites.WriteExactIff` | src/access/header_page.c:449-453 | writes of n bits at a bit offset can be read back and leave all other bits alone, for all pages and data, if and only if n % 8 + offset < 8 or the field ends with a byte |
| `BitWrites.FiveBitsAtSix` | src/access/header_page.c:449-453 | a page on which a write of five bits at offset six clears a bit behind them |
| `BitWrites.WriteMarks` | src/access/heap_file.c:200-226 | setting or clearing the bits of one record position marks or unmarks it and no other position |
| `CacheState.EvictKeeps` | src/cache/page_cache.c:339-407 | eviction frees at least one frame; contents, pinned frames and bookkeeping are kept, whatever bulk import did before |
| `CacheState.EvictFrees` | src/cache/page_cache.c:339-407 | with no frame free it gets through exactly when an unpinned frame is in the queue |
| `CacheState.ListedWaiting` | src/cache/page_cache.c:326-328 | while bulk import has not been used, that is when any frame is unpinned |
| `CacheState.BulkEvictKeeps` | src/cache/page_cache.c:410-445 | the same for the bulk strategy |
| `CacheState.BulkEvictFrees` | src/cache/page_cache.c:410-445 | with no frame free it gets through exactly when any frame is unpinned |
| `CacheState.MoveBackExact` | include/data-struct/linked_list.h:435-466 | reordering the queue keeps its elements, each once |
| `CacheState.PinKeeps` | src/cache/page_cache.c:199-260 | succeeds if and only if the page exists and is in a frame, or a frame is free, or the strategy in force can free one; the frame then holds what readers saw |
| `CacheState.UnpinKeeps` | src/cache/page_cache.c:308-330 | contents unchanged, bookkeeping kept |
| `CacheState.WriteChanges` | src/cache/page_cache.c:199-260 | a write to a pinned page changes what readers see of that page and of no other |
| `CacheState.FlushFromKeeps` | src/cache/page_cache.c:512-517 | succeeds exactly when nothing is pinned, and leaves every frame clean |
| `CacheState.CleanMeansDisk` | src/cache/page_cache.c:471-499 | with every frame clean the disk is what readers see |
| `CacheState.GrowKeeps` | src/io/physical_database.c:344-361 | growing a file appends zero pages to what readers see |
| `CacheState.ResizeKeeps` | src/cache/page_cache.c:573-637 | a resize goes through exactly when nothing is pinned and there is a frame, and changes nothing visible |
| `CacheState.RunTransparent` | src/cache/page_cache.c:151-637 | any interleaving of pins, writes, unpins, both kinds of eviction, flushes, allocations with and without a pin, resizes and switches of bulk import shows readers exactly what the same run on plain files would, and keeps the bookkeeping |
| `CacheState.FlushedRunOnDisk` | src/cache/page_cache.c:512-517 | after a final flush the disk equals the effects of the whole run |
| `CacheState.PinnedStays` | src/cache/page_cache.c:350-395 | no operation moves a pinned page to another frame |
| `CacheState.RunWithoutBulk` | src/cache/page_cache.c:151-637 | in a run that never uses bulk import an existing page can be pinned if and only if it is in a frame, a frame is free, or any frame is unpinned |
| `CacheState.OneAtATime` | src/cache/page_cache.c:199-336 | with a frame and nothing pinned, whoever pins, writes and unpins one page at a time always gets a page that exists |
| `CacheState.FreshPins` | src/cache/page_cache.c:199-211 | an empty cache serves a page exactly if it has a frame |
| `CacheEffects.PinsAfter` | src/cache/page_cache.c:199-336 | a pin adds one pin to its page and an unpin takes one, no other operation changes the pins of any page, and both are counted |
| `CacheEffects.RunPins` | src/cache/page_cache.c:199-336 | after any run a page has its pins from before, plus one for each pin, less one for each unpin |
| `CacheEffects.StaysUntilLastUnpin` | src/cache/page_cache.c:350-395 | a page pinned k times stays in its frame until its k-th unpin |
| `CacheEffects.GrowDiskExact` | src/io/disk_file.c:236-305 | growing a file by n pages adds exactly the next n, all zero, and changes nothing else |
| `CacheEffects.EvictEvicts` | src/cache/page_cache.c:350-395 | the frames evicted are the first unpinned ones of the queue, eleven at most, and they are freed in that order |
| `CacheEffects.EvictLeaves` | src/cache/page_cache.c:391-396 | the queue keeps the others in order |
| `CacheEffects.BulkEvictEvicts` | src/cache/page_cache.c:410-445 | bulk eviction evicts every unpinned frame |
| `CacheEffects.MoveBackRequeues` | include/data-struct/linked_list.h:435-466 | the frame unpinned goes to the back and the others keep their order; the first one stays, and if the last one is unpinned the first goes behind it |
| `CacheEffects.PinBrings` | src/cache/page_cache.c:199-260 | a page comes into the first free frame, evictions included, and no other page moves |
| `CacheEffects.SettlesAfter` | src/cache/page_cache.c:151-637 | what each operation does to frames, page map, free list, queue and files, without naming its transition |
| `CacheState.BulkStrandsFrame` | src/query/snap_importer.c:353-432 | after bulk import on a cache of one frame the next page cannot be had although no page is pinned |
| `PageCache.PageCache.constructor` | src/cache/page_cache.c:31-101 | all frames free, and the files as they are |
| `PageCache.PageCache.Evict` | src/cache/page_cache.c:339-407 | performs the eviction: the loop over the queue, and the removal from back to front |
| `PageCache.PageCache.BulkEvict` | src/cache/page_cache.c:410-445 | performs the bulk eviction |
| `PageCache.PageCache.SetBulkImport` | src/query/snap_importer.c:353-432 | switching the strategy changes nothing that readers see |
| `PageCache.PageCache.PinPage` | src/cache/page_cache.c:151-261 | performs the pin: one pin more on the page, none on any other, in the first frame that is free; readers see no change |
| `PageCache.PageCache.UnpinPage` | src/cache/page_cache.c:264-336 | performs the unpin: exactly one pin less on the page; frames and files stay as they are |
| `PageCache.PageCache.FlushPage` | src/cache/page_cache.c:448-509 | performs the flush: the frame is clean, the disk holds what readers saw of its page, nothing else changes |
| `PageCache.PageCache.FlushAllPages` | src/cache/page_cache.c:512-517 | performs the full flush; the disk is what readers saw |
| `PageCache.PageCache.NewPage` | src/cache/page_cache.c:520-533 | performs the allocation: one zero page more and the header pages given, the appended page being the one pinned |
| `PageCache.PageCache.AllocatePages` | src/query/snap_importer.c:365-366 | adds exactly n zero record pages and the header pages given, without a pin |
| `PageCache.PageCache.ChangeFrames` | src/cache/page_cache.c:573-637 | performs the resize: n frames, all blank and free, and all pages on disk as readers saw them |

## Left out

- The heap file keeps its records in maps over slot files with real header bytes. The byte codec of records, and header and record pages living inside the page cache, are not modelled; `Slots.SlotFile` and `CacheState.RunTransparent` are the two ends that would meet.
- `delete_node`, `contains_relationship_from_to`, `find_node`, `find_relationships`: they inherit the limits of deletion and of directed walks, or only add filters over a scan.
- `reorder_nodes` and `swap_record_pages`: the node loop skips the last slot of each page (`Limits.LastSlotSkipped`); the relationship version is the one proved.
- Orders.NumberSequence: the scratch file is opened through its page cache, and its slots are then numbered on header pages outside the cache; `CacheState.OneAtATime` says that no access would fail. It starts with one header page and not with the computed number more, on which the positions do not depend.
- Swap.MoveRecords: where the program ends because an id is no record position, the model ends before the slot bits, the program after it.
- PageCache.PageCache.Evict: where the program would look up a free frame's page outside its page maps, the operation counts as not getting through.
- The catalogue file: allocation writes it straight to disk and no code pins it.
- BitWrites.WriteBits: a write stays within one page; the split over two pages, and reading, splitting and joining bit arrays, are not modelled.
- Linked lists are sequences. Removing the head or tail of the pointer structure leaves a stale link, which sequences do not show.
- The Fibonacci heap is a multiset. Dijkstra, and A* as far as it goes, are proved for every order of extraction; what A* minimises is proved for least keys first. No claim that A* finds least weights with a heuristic other than zero, since the heuristics are added into the stored distances.
- Weights and distances do not round and do not overflow; ids and counters do not wrap around; files do not reach MAX_PAGE_NO.
- HashTable.Table.Insert: keys are numbers and values are copied by value; callbacks that copy, free or print are not modelled.
- Queries other than Dijkstra, breadth-first search and A*; importers, logging, file handling, benchmarks.
