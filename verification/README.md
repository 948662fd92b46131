# Proofs about the cmph perfect hashing library

cmph builds perfect and minimal perfect hash functions: tables under which every key of a given set
gets a number of its own, and for the minimal ones exactly the numbers below the number of keys. Each
of its algorithms rests on a different argument about graphs, peeling, displacements or permutations.
This project models the algorithms in Dafny, with their arrays, loops and counters, and proves those
arguments for all key sets, all hash functions and all seeds.

| part of the library | files here | what is proved in the end |
|---|---|---|
| graph.c | Multigraph, Graph | one pass over the vertices computes the exact 2-core; the cycle test is exact |
| chm.c | TreePaths, Keys, Chm | order preserving: each key is sent to its own index |
| bmz.c, vqueue.c | VQueue, BmzLabels, BmzRuns, BmzCritical, Bmz, BmzRefusal | the vertex sums are a bijection from the keys onto [0, m); when there is a function |
| bdz.c, bdz_ph.c | Hypergraph, Peeling, TwoBit, Assigning, Mapping, Bdz, BdzPh | peeling is exact; BDZ is a bijection onto [0, m); BDZ_PH is injective into [0, n) |
| mph_index, trigraph and mph_bits of cxxmph | MphBits, MphIndex | the same construction as a class: after a reset its index is a bijection onto [0, m), and masking replaces division exactly for powers of two |
| bitbool.h, select.c, compressed_seq.c, compressed_rank.c | Bits, BitTable, Select, CompressedSeq, CompressedRank | packed tables answer like plain sequences and plain counts, in memory and in the packed form |
| miller_rabin.c | Primes, MillerRabin | every prime but 2, 3, 5, 7 and 61 is accepted, so the search for a number of bins ends |
| chd_ph.c, chd.c | CountingSort, ChdMapping, ChdOrdering, ChdPlacing, ChdRuns, ChdSearching, ChdPairs, ChdPh, Chd, ChdNoRank | no bin gets more keys than allowed; when a search gives up; CHD is a bijection onto [0, m) |
| fch.c, fch_buckets.c | FchBuckets, FchPlacing, Fch | two permutations stay inverse through swaps and rollbacks; when there is a function; FCH is a bijection onto [0, m) |
| jenkins_hash.c | Jenkins, JenkinsKeys, JenkinsExample | the state update is a bijection, so seeds, blocks and lengths that differ give vectors that differ; across blocks every vector is reached |
| examples/epmh.py | HanovHash, HanovRuns, Hanov | what the hash tells apart; when every key is looked up to its value and the slots are a permutation; when the search cannot end |

Arithmetic, Words and Counting hold what the others share: facts on division, the unsigned integer
types, and counting arguments on finite sets.

## How the programs are modelled

* A seeded hash function is an arbitrary total function of seed and key. The seeds of the retry loops
  are parameters, so that "some seed succeeded" and "failure was reported" are both visible. Table sizes
  that the source computes in floating point (`ceil(c * m)`, probe limits, the two constants of FCH) are parameters
  with the bounds the source needs; the load factor of chd_ph.c is a real number, and rounding is not modelled.
* Machine integers are `uint8` and `uint32` subset types; wrap-around is written out where the source
  relies on it (CHM labels, the byte-sized degrees of BDZ, Jenkins), and where a type forbids it the proofs show
  that no wrap-around happens. 64-bit products in int_pow and in the CHD position are shown to fit.
* Structures whose fields the source updates are classes with arrays (`Graphs.Graph`, `VQueues.VQueue`,
  `Hypergraph.Graph3`, `ChdPlacing.Bins`, `FchBuckets.Buckets`, `MphBits.TwoBitSet`, `MphIndexes.MphIndex`); finished,
  read-only structures are datatypes. Ghost fields hold the edge list and the linked lists that the arrays encode.
* Bitmaps with one bit per vertex, edge or bin are arrays of `bool`. The 2-bit values, the strings of up to 31
  bits and the bit vector of select.c are modelled bit by bit with the operators of C. The struct
  fields of an array of structs are separate arrays, as in the C++ copy of the same code.
* `TriGraph` and `GenerateQueue` of cxxmph (trigraph.cc, mph_index.cc) do what the graph and the queue of bdz.c do;
  `Hypergraph.Graph3` and `Peeling.GenerateQueue` stand for both, and so do the loops of `BdzHash.Ranking` and
  `BdzHash.Rank`. Only the table of values differs: it is overwritten, not combined.
* `select_lookup_table`, `rank_lookup_table` and the `lookup_table` of bdz_ph.c are written as the rule their entries
  follow; `bdz_lookup_table` is written out by rows. Words are read as bytes in little-endian order.
* A search that may give up is also written as a function of its inputs (`BmzRuns.LabelRun`, `ChdRuns.PlaceLists`,
  `FchPlacing.PlacedFrom`, `FchHash.SearchFrom`, `Hanov.Construct`). The methods are proved equal to these functions,
  and the theorems on success and failure are about them.
* The value None of Python is `None` in `Hanov.Dict`, both as a dictionary value and as the mark of a free slot.
* Loops that the source writes out in one function are sometimes split into several methods, one per loop or
  loop body.

## Findings

* bmz.c wraps the second vertex with `>` when searching (line 533) and with `>=` when building (line
  432). `Bmz.SearchExact` shows that a search returns the key's number exactly when its two hashes do not meet in
  the last vertex.
* bmz_new keeps the restart flag of the last labelled core. A graph without cycles has no core, so after one restart
  it is refused although nothing can go wrong with it (lines 141 to 165). `Bmz.Searching` says when a graph is refused and
  `Bmz.New` when there is a function. A graph without cycles is accepted if and only if it is the first simple one of
  all (`Bmz.ForestAccepted`), and in `BmzRefusal.RefusedExample` every graph but the first is one and there is no function.
* The degree of a vertex in bdz.c is counted in one byte. `Peeling.DegreeTestExact` says exactly when the
  test for degree 1 is right. `Peeling.DegreeWrapExample` runs the queue on 257 equal edges: the answer is 0 although
  nothing can be peeled, as `Peeling.GenerateQueue` says of every hypergraph in which each edge has a vertex whose
  byte is 1. With degrees up to 256 the answer is exact.
* chd.c needs an empty bin numbered 2 or more. If the largest empty bin is 0 or 1, the select structure gets no
  keys and reads one that is not there (`CompressedRank.SelectHasKeys`). `ChdHash.New` reports this outcome
  as `NoRank`, exactly when every bin from 2 on is taken, and shows that it takes at most two more bins than keys.
  `ChdNoRank.NoRankExample` comes to it with nine keys at load factor 0.99, and fewer than nine keys never do.
* check_primality does not return for 1: its loop halves an even number until it is odd, and starts from 0. 1 is the only
  odd argument for which the guard holds for ever (`MillerRabin.DecompositionEnds`). So chd_ph_new does not return when the computed number of bins
  is 1, which is for fewer keys than keys_per_bin times the load factor (`ChdPhHash.OneBinExact`,
  `ChdPhHash.OneBinNeverEnds`).
* place_buckets2 gives up at the limit of probes even when the last bucket has just been placed (lines 547 to 552). A
  list is placed if and only if it is emptied by fewer sweeps than there are permitted probes (`ChdRuns.SweepsExact`);
  `ChdSearching.GivenUpExample` ends with every bucket placed and reports failure. With a limit of at most one probe
  there is never a function (`ChdRuns.FewProbesGiveUp`, `ChdPhHash.FewProbesFail`). This is the case of a single key,
  for which line 691 computes the limit 0.
* nextpoweroftwo of mph_bits.h returns 0 for arguments above 2^31 (`MphBits.NextPowerOfTwo`). `perfect_square` of
  MPHIndex agrees with `perfect_hash` when the size of a part is a power of two, and `MphBits.MaskingExact` shows that
  for any other size some hash value is reduced differently.
* MPHIndex::Reset with no keys gives up the ranks but keeps the number of keys and the table of the keys before;
  every index is 0 from then on. A reset that fails changes the sizes and the seed but keeps both old tables
  (`MphIndexes.MphIndex.Reset`, `MphIndexes.MphIndex.MinimalPerfectHash`).
* fch_new throws the function of its last permitted iteration away even if the search succeeded (lines 285 to 290).
  `FchHash.New` finds a function if and only if the search of one of the first 99 iterations succeeds, and in
  `FchHash.ThrownAwayExample` only that of the hundredth does.
* The loop of fch.c over the free slots skips some of them: an attempt that fails has already exchanged slots, while the
  index runs on. In `FchPlacing.SkippedExample` a bucket of three keys is not placed although a shift fits. Buckets of
  at most two keys are placed if and only if some shift fits (`FchPlacing.ShortExact`).
* compressed_seq.c takes the length of a code from the value plus one, in 32 bits. `CompressedSeq.LengthExact` shows
  that 2^32 - 1 is the only value with a wrong length; it gets the length of 0, and the query answers 0
  (`CompressedSeq.Seq.Query`). Behind a full table such a value is written past the end, which
  `CompressedSeq.Generate` excludes.
* The search of epmh.py for a displacement cannot end when the number of keys is even and a bucket has more than half
  of them: the lowest bit of the hash is that of the displacement plus the sum of the chars (`HanovHash.HashParity`), so
  the slots of a bucket are all even or all odd (`Hanov.CrowdedNeverEnds`). Two keys get their tables if and only if the
  sums of their chars differ in the lowest bit (`Hanov.TwoKeys`): not "a" and "c".
* The vector hash of Jenkins adds the length of the key to the last block. Keys with the same whole blocks and different
  lengths get different vectors under every seed (`JenkinsKeys.LengthsDiffer`). Across blocks that fails: under every seed
  each key has a longer one that goes on from it with the same vector, of every length that leaves room for
  one more whole block (`JenkinsKeys.PrefixCollides`).
* epmh.py marks free slots by the value None. A key whose value is None leaves its slot looking free, and another key may
  be given the same slot: in `Hanov.BlankExample` a key is looked up to the value of another one. `Hanov.PerfectExact`
  says when the slots are a permutation, and `Hanov.BlanksAloneRight` that they are, with every value right, when
  each key with the value None is alone in its bucket.

## Model

| member | source | states |
|---|---|---|
| `Multigraph.DeletePendant` | cmph-2.0/src/graph.c:199-226 | deleting an edge at a degree-1 vertex takes nothing from any edge set of minimum degree two |
| `Multigraph.PeeledIsCore` | cmph-2.0/src/graph.c:228-252 | when no degree-1 vertex is left, the remaining edges are the largest set of minimum degree two |
| `Multigraph.CycleIsMinDegreeTwo` | cmph-2.0/src/graph.c:228-252 | the edges of a cycle form a set of minimum degree two |
| `Multigraph.ExtendToCycle` | cmph-2.0/src/graph.c:228-252 | a path inside a set of minimum degree two can be extended until it closes into a cycle |
| `Multigraph.CyclicIffCore` | cmph-2.0/src/graph.c:228-252 | a multigraph has a cycle if and only if its core is not empty |
| `Graphs.Graph.constructor` | cmph-2.0/src/graph.c:36-52 | a new graph has no edges |
| `Graphs.Graph.ClearEdges` | cmph-2.0/src/graph.c:162-173 | all edges and lists are forgotten |
| `Graphs.Graph.AddEdge` | cmph-2.0/src/graph.c:85-103 | the edge is appended, and the threaded lists of both ends stay exactly the lists of incident half edges, the last added first |
| `Graphs.NeighborAt` | cmph-2.0/src/graph.c:321-336 | the list of a vertex leads to its neighbors in the order that the sequence of edges determines |
| `Graphs.Graph.NextNeighbor` | cmph-2.0/src/graph.c:328-336 | the iterator yields the opposite end of the next incident half edge and moves on by one |
| `Graphs.Graph.EdgeId` | cmph-2.0/src/graph.c:113-125 | finds an edge between the two given vertices |
| `Graphs.Graph.ContainsEdge` | cmph-2.0/src/graph.c:296-309 | says whether any edge joins the two vertices |
| `Graphs.Graph.FindDegree1Edge` | cmph-2.0/src/graph.c:175-197 | finds the only live edge of a vertex exactly if it has degree 1, loops counted twice |
| `Graphs.Graph.CyclicDelEdge` | cmph-2.0/src/graph.c:199-226 | deletes a chain of degree-1 edges; no new degree-1 vertex remains before the current one and no core edge is lost |
| `Graphs.Graph.IsCyclic` | cmph-2.0/src/graph.c:228-252 | true if and only if the multigraph has a cycle, after a single pass over the vertices |
| `Graphs.Graph.ObtainCriticalNodes` | cmph-2.0/src/graph.c:259-294 | the marked vertices are exactly those of the 2-core |
| `TreePaths.EvenOffCore` | cmph-2.0/src/chm.c:146-164 | an edge set of even degree everywhere outside the core is contained in the core |
| `TreePaths.TwoWaysIn` | cmph-2.0/src/chm.c:146-164 | a vertex that hangs on the visited part by one edge cannot be reached by a second edge outside the core |
| `TreePaths.GrowOk` | cmph-2.0/src/chm.c:146-164 | visiting a new neighbour keeps the tree invariant of the depth-first search |
| `TreePaths.FinishedWalk` | cmph-2.0/src/chm.c:115-122 | a finished search has visited whole components |
| `Keys.EdgeOfHashes` | cmph-2.0/src/chm.c:181-183 | the edge joins the two hashes modulo n, or that of both and the next vertex modulo n; it is a loop if and only if n is 1 |
| `Multigraph.FewEdges` | cmph-2.0/src/graph.c:228-252 | at most two edges, none a loop, have a cycle if and only if they join the same two vertices |
| `Keys.FewKeys` | cmph-2.0/src/chm.c:166-199 | the graph of at most two keys has a cycle if and only if both get the same edge |
| `Chm.Traverse` | cmph-2.0/src/chm.c:146-164 | the recursive search labels every edge it meets so that the wrapped sum of its ends is the edge's number |
| `Chm.Assign` | cmph-2.0/src/chm.c:110-122 | in a forest the labels of the two ends of every edge add up to its number modulo 2^32 |
| `Chm.GenEdges` | cmph-2.0/src/chm.c:166-199 | succeeds exactly on the seeds whose graph has no cycle |
| `Chm.SearchIndex` | cmph-2.0/src/chm.c:277-285 | with such labels the search returns the position of the key in the key sequence |
| `Chm.New` | cmph-2.0/src/chm.c:53-144 | fails if and only if all twenty graphs have a cycle, and otherwise every key is sent to its own index; one key never fails, and two fail if and only if each seed pair gives both the same edge |
| `VQueues.VQueue.Insert` | cmph-2.0/src/vqueue.c:27-32 | appends to the queue held in the circular buffer |
| `VQueues.VQueue.Remove` | cmph-2.0/src/vqueue.c:34-39 | takes the front element off |
| `VQueues.VQueue.IsEmpty` | cmph-2.0/src/vqueue.c:22-25 | says whether the queue is empty |
| `BmzLabels.NewLabels` | cmph-2.0/src/bmz.c:220-257 | labelling one more core vertex keeps the sums of core edges distinct, below m and marked as used |
| `BmzCritical.Lookahead` | cmph-2.0/src/bmz.c:223-242 | Free: the label fits all labelled neighbours; Collision: it gives some edge a used number; Restart: it gives some edge a number of m or more |
| `BmzCritical.FindLabel` | cmph-2.0/src/bmz.c:220-243 | the least label above the largest one so far that fits every labelled neighbour; a restart if and only if there is none |
| `BmzCritical.MarkUsed` | cmph-2.0/src/bmz.c:244-253 | marks exactly the numbers that the new label gives to edges |
| `BmzCritical.BreadthFirst` | cmph-2.0/src/bmz.c:211-262 | the search reaches every core edge of the component, and the queue never overflows; labels and restart are those of `BmzRuns.Search` |
| `BmzCritical.TraverseCritical` | cmph-2.0/src/bmz.c:198-263 | keeps the core labelling invariant; asks for a restart exactly when `BmzRuns.Part` comes to a vertex that no label fits |
| `BmzRuns.LeastLabelIs` | cmph-2.0/src/bmz.c:220-243 | the label of a vertex is determined: the least one that fits, or none |
| `BmzRuns.CoreVerticesAre` | cmph-2.0/src/bmz.c:125-125 | the vertices labelled are those of the largest edge set of minimum degree two |
| `Bmz.LabelCore` | cmph-2.0/src/bmz.c:141-149 | the loop over the core restarts exactly when the run over all critical vertices gets stuck, and keeps the flag when there are none |
| `Bmz.NumberLeft` | cmph-2.0/src/bmz.c:359-368 | while an edge is unlabelled some number below m is unused at or after the current index |
| `Bmz.NextUnusedEdge` | cmph-2.0/src/bmz.c:359-368 | returns the first unused number; its assertion never fails |
| `Bmz.Traverse` | cmph-2.0/src/bmz.c:370-386 | gives the edges of a tree hanging on visited vertices the unused numbers, each once |
| `Bmz.TraverseNonCritical` | cmph-2.0/src/bmz.c:388-413 | after both traversals the sums of the edges are a bijection onto [0, m) |
| `Bmz.Searching` | cmph-2.0/src/bmz.c:120-170 | without a restart the edge sums are a bijection onto [0, m); there is a restart if and only if the graph has a cycle and the labelling of its core gets stuck, or it has none and the flag was set before |
| `Bmz.GenEdges` | cmph-2.0/src/bmz.c:415-448 | succeeds exactly on the seeds whose graph is simple |
| `Bmz.SearchExact` | cmph-2.0/src/bmz.c:527-535 | the search returns the key's edge number if and only if its hashes do not both fall on the last vertex |
| `Bmz.SearchIsMinimalPerfect` | cmph-2.0/src/bmz.c:527-535 | when no key is in that corner the search is a bijection from the keys onto [0, m) |
| `Bmz.New` | cmph-2.0/src/bmz.c:57-196 | there is a function if and only if one of at most twenty rounds, of at most a hundred graphs each, accepts its first simple graph; it has the seeds of the first that does, and numbers the edges of the keys by a bijection onto [0, m); two keys have one if and only if one of the first hundred seed pairs gives them different edges |
| `Bmz.FewKeysAccepted` | cmph-2.0/src/bmz.c:57-170 | up to two keys get a function unless each of the first hundred seed pairs gives both the same edge |
| `Bmz.ForestsRefused` | cmph-2.0/src/bmz.c:141-165 | after one restart only graphs with a cycle are accepted |
| `Bmz.ForestAccepted` | cmph-2.0/src/bmz.c:57-170 | a graph without cycles is accepted if and only if it is the first simple one of all |
| `BmzRefusal.TriangleStuck` | cmph-2.0/src/bmz.c:198-263 | the labelling of a triangle gets stuck at its third vertex |
| `BmzRefusal.RefusedExample` | cmph-2.0/src/bmz.c:57-170 | three keys, a triangle first and paths ever after: there is no function |
| `Hypergraph.Graph3.Init` | cmph-2.0/src/bdz.c:72-77 | empties all lists and counters |
| `Hypergraph.Graph3.AddEdge` | cmph-2.0/src/bdz.c:93-106 | every linked list stays the list of live edges at its vertex, every counter its length modulo 256 |
| `Hypergraph.Graph3.FindBefore` | cmph-2.0/src/bdz.c:128-140 | the walk finds the predecessor of the edge in the list, and the error exit is never reached |
| `Hypergraph.Graph3.RemoveEdge` | cmph-2.0/src/bdz.c:126-158 | takes the edge out of exactly its three lists and out of the live edges |
| `Hypergraph.RemovePrivate` | cmph-2.0/src/bdz.c:184-216 | removing an edge with a vertex of its own takes nothing from any set of minimum degree two |
| `Peeling.QueuePop` | cmph-2.0/src/bdz.c:184-188 | edges waiting in the queue keep a vertex of their own while others are removed |
| `Peeling.QueueDone` | cmph-2.0/src/bdz.c:160-219 | at the end the queue holds all edges if and only if no non-empty edge set has minimum degree two |
| `Peeling.DegreeTestExact` | cmph-2.0/src/bdz.c:62-62 | the byte test for degree 1 is right if and only if the true degree does not wrap round to 1 |
| `Peeling.DegreeWrapExample` | cmph-2.0/src/bdz.c:160-219 | 257 equal edges: nothing can be peeled, and the queue answers 0 |
| `Peeling.GenerateQueue` | cmph-2.0/src/bdz.c:160-219 | when degrees are up to 256, returns 0 if and only if the hypergraph can be peeled, and then each edge of the queue has a vertex absent from all later ones; when every edge has a vertex whose degree byte is 1, returns 0 in any case |
| `TwoBit.SetValue1` | cmph-2.0/src/bitbool.h:49-49 | combines one 2-bit value by & and leaves all others as they were |
| `TwoBit.SetValue0` | cmph-2.0/src/bitbool.h:61-61 | combines one 2-bit value by &#124; and leaves all others as they were |
| `Assigning.SteerMod` | cmph-2.0/src/bdz.c:448-462 | the value chosen makes the sum of the three values select the wanted vertex |
| `Assigning.AssignStep` | cmph-2.0/src/bdz.c:433-465 | handling one more edge keeps every earlier edge's vertex and gives the new edge one that none of them has |
| `Assigning.Assign` | cmph-2.0/src/bdz.c:421-467 | for a peeling order the edges select pairwise different vertices, and exactly the selected vertices hold a value other than 3 |
| `Assigning.Assign0` | cmph-2.0/src/bdz_ph.c:378-424 | the same over a table of zeros, with all values below 3 |
| `Mapping.VerticesMeet` | cmph-2.0/src/bdz.c:409-412 | two keys share a vertex if and only if it is in the same part for both and they agree modulo r in the word of that part |
| `Mapping.PeelsByWords` | cmph-2.0/src/bdz.c:395-418 | the hypergraph can be peeled if and only if there is no set of keys in which every key agrees modulo r, in each of its three words, with another one |
| `Mapping.DrawnByWords` | cmph-2.0/src/bdz.c:306-340 | up to 256 keys get a function if and only if under some seed no keys are tangled like this; two keys, if and only if under some seed they differ modulo r in some word |
| `Mapping.MapKeys` | cmph-2.0/src/bdz.c:395-418 | when degrees are up to 256, succeeds exactly on the seeds whose hypergraph can be peeled |
| `Mapping.MapUntil` | cmph-2.0/src/bdz.c:306-340 | the loop ends with the first hypergraph that is accepted: of those with degrees up to 256, none before it can be peeled and it can |
| `BdzHash.LookupCounts` | cmph-2.0/src/bdz.c:19-37 | the table gives the number of assigned values in every byte |
| `BdzHash.ChosenRanksAreBijection` | cmph-2.0/src/bdz.c:595-607 | the ranks of the selected vertices are a bijection from the edges onto [0, m) |
| `BdzHash.Ranking` | cmph-2.0/src/bdz.c:470-490 | entry i is the number of assigned vertices before the i-th block; the remaining byte count never underflows |
| `BdzHash.Rank` | cmph-2.0/src/bdz.c:571-593 | the number of assigned vertices before the given one |
| `BdzHash.Bdz.Search` | cmph-2.0/src/bdz.c:595-607 | the rank of the vertex that the key's three values select |
| `BdzHash.New` | cmph-2.0/src/bdz.c:271-392 | of the hypergraphs with degrees up to 256, none before the last one drawn can be peeled, and the last one can if and only if there is a function, whose search is then a bijection onto [0, m); up to 256 keys have one exactly as `Mapping.DrawnByWords` says of their words |
| `BdzPhHash.PackByte` | cmph-2.0/src/bdz_ph.c:426-444 | five values in base 3 never exceed 242 |
| `BdzPhHash.PackDigit` | cmph-2.0/src/bdz_ph.c:19-26 | decoding a digit gives back the value that was packed |
| `BdzPhHash.Optimize` | cmph-2.0/src/bdz_ph.c:426-444 | every value can be read back from the repacked table |
| `BdzPhHash.SearchIsChosen` | cmph-2.0/src/bdz_ph.c:508-530 | the search over the repacked table returns the vertex that the original values select |
| `BdzPhHash.New` | cmph-2.0/src/bdz_ph.c:237-346 | of the hypergraphs with degrees up to 256, none before the last one drawn can be peeled, and the last one can if and only if there is a function, whose search is then injective into [0, n); up to 256 keys have one exactly as `Mapping.DrawnByWords` says of their words |
| `MphBits.SetByteFields` | cmph-2.0/cxxmph/mph_bits.h:30-36 | filling a field with ones and masking puts the new value there and keeps the other three fields of the byte |
| `MphBits.TwoBitSet.constructor` | cmph-2.0/cxxmph/mph_bits.h:22-22 | all values are 3 or all are 0 |
| `MphBits.TwoBitSet.Get` | cmph-2.0/cxxmph/mph_bits.h:25-29 | the value stored at the place |
| `MphBits.TwoBitSet.Set` | cmph-2.0/cxxmph/mph_bits.h:30-36 | overwrites one value, whatever it was, and leaves all others |
| `MphBits.SmearedWord` | cmph-2.0/cxxmph/mph_bits.h:60-61 | the five or-steps fill every place below the highest bit |
| `MphBits.NextPowerIsLeast` | cmph-2.0/cxxmph/mph_bits.h:58-63 | the specification is the smallest power of two that is not below the argument |
| `MphBits.NextPowerOfTwo` | cmph-2.0/cxxmph/mph_bits.h:58-63 | computes that power, and 0 above 2^31 |
| `MphBits.MaskingExact` | cmph-2.0/cxxmph/mph_index.h:182-184 | h & (r - 1) equals h % r for every h if and only if r is a power of two |
| `MphIndexes.HandleEdge` | cmph-2.0/cxxmph/mph_index.cc:119-147 | on a peeling order an unmarked vertex of the edge gets the value that makes the sum of the three select it, and all three are marked |
| `MphIndexes.MphIndex.Assigning` | cmph-2.0/cxxmph/mph_index.cc:107-156 | for a peeling order the edges select pairwise different vertices, and exactly the selected vertices hold a value other than 3 |
| `MphIndexes.MphIndex.Ranking` | cmph-2.0/cxxmph/mph_index.cc:158-182 | the block table holds the ranks of the first vertices of the blocks |
| `MphIndexes.MphIndex.Rank` | cmph-2.0/cxxmph/mph_index.cc:184-211 | the number of assigned vertices before the given one, or 0 without a table |
| `MphIndexes.MphIndex.Mapping` | cmph-2.0/cxxmph/mph_index.h:158-177 | when degrees are up to 256, succeeds exactly on the seeds whose hypergraph can be peeled |
| `MphIndexes.MphIndex.PerfectHash` | cmph-2.0/cxxmph/mph_index.h:193-206 | the vertex that the key's edge selects, one in each part by one word each (`Mapping.VerticesMeet`) |
| `MphIndexes.MphIndex.PerfectSquare` | cmph-2.0/cxxmph/mph_index.h:179-191 | the same vertex whenever the size of a part is a power of two |
| `MphIndexes.PartSizes` | cmph-2.0/cxxmph/mph_index.h:126-130 | the size of a part is the smallest odd number not below the computed one, or the smallest power of two not below that |
| `MphIndexes.MphIndex.SquareIsPower` | cmph-2.0/cxxmph/mph_index.h:126-130 | in the square form it is |
| `MphIndexes.MphIndex.MinimalPerfectHash` | cmph-2.0/cxxmph/mph_index.h:208-211 | the rank of the key's vertex, or 0 without a table |
| `MphIndexes.MphIndex.Reset` | cmph-2.0/cxxmph/mph_index.h:118-156 | of the hypergraphs with degrees up to 256, none before the last one drawn can be peeled, and the last one can if and only if the reset succeeds; then index is a bijection onto [0, m) and perfect_hash injective into [0, n); up to 256 keys succeed exactly as `Mapping.DrawnByWords` says of their words; with no keys only the ranks are given up |
| `Bits.SameBits` | cmph-2.0/src/bitbool.h:104-166 | numbers with the same bits are equal |
| `BitTable.GetBitsBit` | cmph-2.0/src/bitbool.h:154-166 | the bits read are the bits of the table from the position on, also across a word boundary |
| `BitTable.SetBits` | cmph-2.0/src/bitbool.h:138-152 | writes the string at its position and changes no other bit |
| `BitTable.SetValue` | cmph-2.0/src/bitbool.h:104-120 | the same at a multiple of the string length |
| `BitTable.ReadBack` | cmph-2.0/src/bitbool.h:138-166 | what was written is read back |
| `BitTable.ReadElsewhere` | cmph-2.0/src/bitbool.h:138-166 | strings at other positions are not disturbed |
| `Select.Append` | cmph-2.0/src/select.c:24-33 | shifting a bit into the buffer and storing full words keeps the vector equal to the bits emitted so far |
| `Select.FillVector` | cmph-2.0/src/select.c:124-161 | the ones of the vector are exactly at the positions keys[k] + k |
| `Select.GenerateTable` | cmph-2.0/src/select.c:68-92 | entry i is the position of the one number 128 * i |
| `Select.OneOfKey` | cmph-2.0/src/select.c:94-165 | the k-th one stands at keys[k] + k |
| `Select.Query` | cmph-2.0/src/select.c:167-188 | table and byte steps find the one with the given number |
| `Select.NextQuery` | cmph-2.0/src/select.c:196-215 | from the k-th one to the next |
| `Select.Select.SelectQuery` | cmph-2.0/src/select.c:190-193 | returns keys[k] + k for every k below n |
| `Select.Select.SelectNextQuery` | cmph-2.0/src/select.c:217-220 | from keys[k] + k to keys[k + 1] + k + 1 |
| `Select.GenerateSelect` | cmph-2.0/src/select.c:94-165 | builds the structure for every sorted sequence of keys up to m |
| `CompressedSeq.ILog2` | cmph-2.0/src/compressed_seq.c:13-23 | the integer part of the binary logarithm |
| `CompressedSeq.LengthExact` | cmph-2.0/src/compressed_seq.c:58-66 | the length computed in 32 bits is right if and only if the value is below 2^32 - 1, and 2^32 - 1 gets the length of 0 |
| `CompressedSeq.RemainderWidth` | cmph-2.0/src/compressed_seq.c:83-95 | the width chosen keeps the size of the remainder table within 32 bits |
| `CompressedSeq.Generate` | cmph-2.0/src/compressed_seq.c:45-116 | the structure holds the given values, each under the length computed for it |
| `CompressedSeq.Seq.Query` | cmph-2.0/src/compressed_seq.c:126-160 | returns the i-th value, for every i, and 0 where that is 2^32 - 1 |
| `CompressedSeq.RoundTrip` | cmph-2.0/src/compressed_seq.c:162-236 | the pointer arithmetic of the packed query finds the parts that were dumped |
| `CompressedSeq.QueryPacked` | cmph-2.0/src/compressed_seq.c:333-378 | the packed form answers the same for every i |
| `CompressedRank.Compare` | cmph-2.0/src/compressed_rank.c:86-88 | quotients decide the order of two values, remainders decide it when the quotients are equal |
| `CompressedRank.SelectHasKeys` | cmph-2.0/src/compressed_rank.c:42-70 | the select structure gets a key if and only if the largest value is at least 2 |
| `CompressedRank.FindBoundaries` | cmph-2.0/src/compressed_rank.c:58-65 | entry i is the first value whose quotient exceeds i |
| `CompressedRank.Generate` | cmph-2.0/src/compressed_rank.c:37-73 | the structure is built for every sorted sequence with a largest value of at least 2 |
| `CompressedRank.Rank.Query` | cmph-2.0/src/compressed_rank.c:75-114 | the number of stored values below idx, for every idx; the scan stops inside the tables |
| `CompressedRank.CountIsCardinality` | cmph-2.0/src/compressed_rank.c:75-114 | that number is the cardinality of the set of positions with a smaller value |
| `CompressedRank.QueryPacked` | cmph-2.0/src/compressed_rank.c:266-319 | the packed form counts the same |
| `Primes.Euclid` | cmph-2.0/src/miller_rabin.c:17-30 | a prime that divides a product divides one of the factors |
| `Primes.RootsOfOne` | cmph-2.0/src/miller_rabin.c:17-30 | modulo a prime only 1 and -1 are square roots of 1 |
| `Primes.Fermat` | cmph-2.0/src/miller_rabin.c:3-15 | Fermat's little theorem |
| `MillerRabin.IntPow` | cmph-2.0/src/miller_rabin.c:3-15 | a to the power d modulo n; for n up to 2^32 every product fits 64 bits |
| `MillerRabin.CheckWitness` | cmph-2.0/src/miller_rabin.c:17-30 | returns 1 exactly if the base does not witness compositeness |
| `MillerRabin.PrimeHasNoWitness` | cmph-2.0/src/miller_rabin.c:17-30 | no base that a prime does not divide witnesses against it |
| `MillerRabin.NoWitnessByPowers` | cmph-2.0/src/miller_rabin.c:17-30 | a base a does not witness if and only if a^d is 1 modulo n, or a^(2^i * d) is -1 for some i below s |
| `MillerRabin.Decompose` | cmph-2.0/src/miller_rabin.c:43-50 | n - 1 is 2^s * d with d odd, for odd n above 1, and s - 1 is the number of turns of the loop |
| `MillerRabin.DecompositionEnds` | cmph-2.0/src/miller_rabin.c:43-50 | for odd n the guard of the loop holds for ever if and only if n is 1 |
| `MillerRabin.CheckPrimality` | cmph-2.0/src/miller_rabin.c:32-65 | accepts exactly the numbers that pass trial division by 2, 3, 5, 7 and the three bases |
| `MillerRabin.PrimesAccepted` | cmph-2.0/src/miller_rabin.c:32-65 | a prime is accepted if and only if it is none of 2, 3, 5, 7 and 61 |
| `MillerRabin.AcceptedIsFermat` | cmph-2.0/src/miller_rabin.c:32-65 | whatever is accepted satisfies Fermat's congruence for the bases 2, 7 and 61 |
| `MillerRabin.FindBins` | cmph-2.0/src/chd_ph.c:666-674 | the first odd number from n on that is accepted; the search ends at the latest at the first prime above 61 |
| `MillerRabin.BinsExist` | cmph-2.0/src/chd_ph.c:666-674 | such a prime exists for every n |
| `ChdMapping.BucketInsert` | cmph-2.0/src/chd_ph.c:80-102 | appends the item to its bucket, or refuses it exactly if the bucket has it already |
| `ChdMapping.FillBuckets` | cmph-2.0/src/chd_ph.c:230-277 | fails exactly if some bucket gets the same item twice; otherwise every bucket is the stretch of its keys' items in order |
| `CountingSort.OffsetTotal` | cmph-2.0/src/chd_ph.c:262-268 | the groups laid out one behind the other have all elements |
| `CountingSort.LayNext` | cmph-2.0/src/chd_ph.c:269-274 | writing an element behind its group's earlier ones disturbs no other group |
| `ChdOrdering.PlaceBuckets` | cmph-2.0/src/chd_ph.c:321-339 | every non-empty bucket goes behind the earlier ones of its size |
| `ChdOrdering.MoveItems` | cmph-2.0/src/chd_ph.c:347-362 | the items of every bucket are copied in the new order, none is overwritten |
| `ChdOrdering.Order` | cmph-2.0/src/chd_ph.c:291-366 | for every size a list of exactly the buckets of that size, each with its items, contiguous |
| `ChdPlacing.PositionStart` | cmph-2.0/src/chd_ph.c:382-382 | without displacement an item lies in the bin f |
| `ChdPlacing.PositionSteps` | cmph-2.0/src/chd_ph.c:382-382 | a step of the first probe number moves an item on by its own h, a step of the second by one bin, modulo n |
| `ChdPlacing.Collision` | cmph-2.0/src/chd_ph.c:382-382 | two items share a bin if and only if the differences of f and of h times the first probe number add up to 0 modulo n |
| `ChdPlacing.CollideOnce` | cmph-2.0/src/chd_ph.c:382-382 | modulo a prime, items with different h share a bin under at most one value of the first probe number |
| `ChdPlacing.UndoItems` | cmph-2.0/src/chd_ph.c:403-434 | undoing a partial placement takes exactly the placed items out again |
| `ChdPlacing.PlaceBucketProbe` | cmph-2.0/src/chd_ph.c:368-438 | succeeds if and only if the whole bucket fits; a failed probe leaves the occupancy table as it was |
| `ChdPlacing.Decode` | cmph-2.0/src/chd_ph.c:914-915 | probe0 + probe1 * n decodes by % and / |
| `ChdPlacing.PlaceBucket` | cmph-2.0/src/chd_ph.c:440-469 | stores the smallest displacement that fits, and fails if and only if none of the permitted ones does |
| `ChdSearching.PlaceBuckets1` | cmph-2.0/src/chd_ph.c:471-491 | on success every bucket is placed and no bin is above the limit; it succeeds if and only if each bucket in turn has a permitted displacement |
| `ChdSearching.SweepKept` | cmph-2.0/src/chd_ph.c:512-540 | compacting the list in place loses no bucket that is still to be placed |
| `ChdSearching.PlaceBuckets2` | cmph-2.0/src/chd_ph.c:493-557 | on success every bucket is placed and no bin is above the limit; it succeeds exactly as `ChdRuns.PlaceLists` does, list by list |
| `ChdSearching.GivenUpExample` | cmph-2.0/src/chd_ph.c:547-552 | every bucket is placed, and failure is reported |
| `ChdRuns.SizeListIs` | cmph-2.0/src/chd_ph.c:291-366 | there is only one list of the buckets of a size, so the run of a search is determined |
| `ChdRuns.SweepsExact` | cmph-2.0/src/chd_ph.c:493-557 | a list is placed if and only if it is emptied by fewer sweeps than there are permitted probes |
| `ChdRuns.FewProbesGiveUp` | cmph-2.0/src/chd_ph.c:547-552 | with a limit of at most one probe the search gives up for any keys |
| `ChdSearching.OccupiedByKeys` | cmph-2.0/src/chd_ph.c:902-919 | when all buckets are placed the bins hold exactly the positions that the search computes for the keys |
| `ChdSearching.SearchedIsPerfect` | cmph-2.0/src/chd_ph.c:493-557 | no bin gets more keys than allowed, counted over the keys themselves |
| `ChdPairs.SoonApart` | cmph-2.0/src/chd_ph.c:368-402 | two different items of one bucket lie in different bins under displacement 0 or 1 |
| `ChdPairs.PairPlaced` | cmph-2.0/src/chd_ph.c:440-557 | with displacement 1 permitted, two different items are placed by either search, in one bucket or in two |
| `ChdPhHash.ItemsOfWords` | cmph-2.0/src/chd_ph.c:244-247 | two keys get the same bucket and item if and only if their words agree modulo the number of buckets, n and n - 1 |
| `ChdPhHash.GoodSeed` | cmph-2.0/src/chd_ph.c:216-289 | a seed puts no item twice into a bucket if and only if it tells all keys apart |
| `ChdPhHash.MapKeys` | cmph-2.0/src/chd_ph.c:216-289 | fails if and only if all thousand seeds put an item twice into a bucket |
| `ChdPhHash.ChdPh.Search` | cmph-2.0/src/chd_ph.c:902-919 | the bin of the key's item under the stored displacement of its bucket (`ChdPlacing.PositionSteps`) |
| `ChdPhHash.ChdPh.SearchPacked` | cmph-2.0/src/chd_ph.c:960-985 | the same from the packed displacements |
| `ChdPhHash.New` | cmph-2.0/src/chd_ph.c:622-831 | the function is that of the first search that succeeds, and there is none exactly if no search does; its seed tells all keys apart, and two keys have one if and only if one of the first thousand seeds does, when displacement 1 is permitted; no bin gets more than keys_per_bin keys, and the occupancy table says how many each has |
| `ChdPhHash.TryAll` | cmph-2.0/src/chd_ph.c:702-754 | the loop over the seeds ends with the first search that succeeds, or after a hundred |
| `ChdPhHash.FewProbesFail` | cmph-2.0/src/chd_ph.c:691-691 | with the sweeping search and a limit of at most one probe, as for one key, no seed gives a function |
| `ChdPhHash.TwoKeysTried` | cmph-2.0/src/chd_ph.c:702-754 | the first search for two keys that are told apart succeeds |
| `ChdPhHash.NearestLoad` | cmph-2.0/src/chd_ph.c:652-660 | the limited load factor is the one in [0.5, 0.99] nearest to the given one |
| `ChdPhHash.BinsForLoad` | cmph-2.0/src/chd_ph.c:652-664 | the computed number of bins is the smallest with which the load is below the limited load factor |
| `ChdPhHash.OneBinExact` | cmph-2.0/src/chd_ph.c:652-667 | one bin is computed if and only if there are fewer keys than keys_per_bin times the load factor |
| `ChdPhHash.OneBinNeverEnds` | cmph-2.0/src/chd_ph.c:668-674 | then the test for primality goes on for ever |
| `ChdPhHash.MoreBinsThanKeys` | cmph-2.0/src/chd_ph.c:652-664 | with one key per bin there are more bins than keys |
| `ChdHash.CollectEmpty` | cmph-2.0/src/chd.c:121-137 | collects exactly the empty bins in increasing order, as many as there are more bins than keys |
| `ChdHash.EmptyBelow` | cmph-2.0/src/chd.c:223-228 | the number of empty bins below x is x less the number of taken bins below x |
| `ChdHash.Chd.Search` | cmph-2.0/src/chd.c:223-228 | the number of taken bins below the key's bin |
| `ChdHash.RankEmpty` | cmph-2.0/src/chd.c:121-143 | ranking the empty bins makes a function with one key per bin minimal, or has no keys to select from exactly if every bin from 2 on is taken |
| `ChdHash.New` | cmph-2.0/src/chd.c:64-174 | a built function is a bijection from the keys onto [0, m); it fails if and only if CHD_PH does, and has no ranks if and only if every bin from 2 on is taken, which does not happen up to eight keys; two keys get a function exactly as from CHD_PH |
| `ChdNoRank.NoRankExample` | cmph-2.0/src/chd.c:121-150 | nine keys in eleven bins come to no ranks |
| `Counting.RanksAreBijection` | cmph-2.0/src/chd.c:223-228 | ranking distinct marked places numbers them without gaps |
| `FchBuckets.Buckets.Insert` | cmph-2.0/src/fch_buckets.c:134-142 | appends the key to its bucket and keeps the largest size |
| `FchBuckets.IndexesBySize` | cmph-2.0/src/fch_buckets.c:173-200 | the permutation of the bucket indexes by decreasing size, those of equal size in their order |
| `FchPlacing.MixHExact` | cmph-2.0/src/fch.c:58-67 | the bucket is one of the first p2 if and only if the index is below p1, and congruent to the index modulo p2; from p1 on it is congruent modulo b to the index, or to the index plus p2 where that would be one of the first p2 |
| `FchPlacing.SharedBucket` | cmph-2.0/src/fch.c:58-67 | when two first hashes lead to the same bucket, said of the hashes modulo m |
| `FchHash.Collides` | cmph-2.0/src/fch.c:121-146 | reports a collision exactly if two keys of a bucket share a second hash value |
| `FchHash.RandomTables` | cmph-2.0/src/fch.c:173-181 | the permutation that the draws give, and its inverse |
| `FchHash.EveryOrder` | cmph-2.0/src/fch.c:148-157 | every permutation can be drawn |
| `FchPlacing.TakeSlot` | cmph-2.0/src/fch.c:220-229 | the swap keeps the two tables inverse to each other |
| `FchPlacing.ShiftedExact` | cmph-2.0/src/fch.c:212-237 | different slots can be taken one after the other if and only if each of them is free at the start |
| `FchPlacing.ShiftUnique` | cmph-2.0/src/fch.c:211-211 | exactly one shift sends a key to a given slot |
| `FchPlacing.PlaceKeys` | cmph-2.0/src/fch.c:208-237 | the taken slots are the first entries of the permutation, after success with the bucket's slots, after a rollback as before; both tables are those of `FchPlacing.Shifted` |
| `FchPlacing.PlaceBucket` | cmph-2.0/src/fch.c:204-238 | the bucket is placed behind the earlier ones, or the taken slots are as before; which of the two happens, and what becomes of the free slots, is what `FchPlacing.PlacedFrom` says |
| `FchPlacing.PlacedFits` | cmph-2.0/src/fch.c:204-238 | a bucket that is placed fits under some shift |
| `FchPlacing.ShortExact` | cmph-2.0/src/fch.c:204-238 | a bucket of at most two keys is placed if and only if some shift sends its keys to free slots |
| `FchPlacing.SinglePlaced` | cmph-2.0/src/fch.c:204-238 | a bucket of one key is placed whenever a slot is free, and takes one |
| `FchPlacing.SkippedExample` | cmph-2.0/src/fch.c:204-238 | a bucket of three keys is not placed although a shift fits |
| `FchHash.EmptyEndsOrder` | cmph-2.0/src/fch.c:196-202 | stopping at the first empty bucket leaves no key out |
| `FchHash.PlacedIsPerfect` | cmph-2.0/src/fch.c:399-407 | when all buckets are placed the search is a bijection onto [0, m) |
| `FchHash.Searching` | cmph-2.0/src/fch.c:159-245 | reports success only with every bucket placed, and exactly when `FchHash.SearchFrom` does |
| `FchHash.SearchGivesUp` | cmph-2.0/src/fch.c:182-241 | a thousand second hashes in a row that collide end the search |
| `FchHash.OwnBucketsSucceed` | cmph-2.0/src/fch.c:249-313 | an iteration whose first hash gives every key a bucket of its own succeeds |
| `FchHash.New` | cmph-2.0/src/fch.c:249-313 | there is a function if and only if the search of one of the first 99 iterations succeeds, as it does when the first hash gives every key a bucket of its own; it is a bijection from the keys onto [0, m) |
| `FchHash.ThrownAwayExample` | cmph-2.0/src/fch.c:285-290 | only the search of the hundredth iteration succeeds, and there is no function |
| `Jenkins.MixIsBijection` | cmph-2.0/src/jenkins_hash.c:47-58 | mix is a bijection on triples of 32-bit words |
| `Jenkins.SumInjective` | cmph-2.0/src/jenkins_hash.c:112-118 | four sign-extended chars are determined by their sum |
| `Jenkins.HashVector` | cmph-2.0/src/jenkins_hash.c:101-152 | the loop over the blocks and the last step compute the chain that the theorems below are about |
| `Jenkins.SeedsDiffer` | cmph-2.0/src/jenkins_hash.c:101-152 | for every key different seeds give different vectors |
| `Jenkins.BlocksDiffer` | cmph-2.0/src/jenkins_hash.c:101-152 | keys of equal length that differ in one block or only in the last chars get different vectors |
| `JenkinsKeys.LengthsDiffer` | cmph-2.0/src/jenkins_hash.c:121-152 | keys of different lengths with the same whole blocks get different vectors under every seed, whatever their last chars are |
| `JenkinsKeys.PrefixDiffers` | cmph-2.0/src/jenkins_hash.c:121-152 | a key and a longer one that goes on from it without completing a block get different vectors |
| `JenkinsKeys.WordIsSigned` | cmph-2.0/src/jenkins_hash.c:114-116 | four chars add the little-endian number with signed digits, modulo 2^32 |
| `JenkinsKeys.TailIsSigned` | cmph-2.0/src/jenkins_hash.c:123-149 | so do the last chars, the first and the fifth without sign, and with the lowest byte of the third word left to the length |
| `JenkinsKeys.EveryVector` | cmph-2.0/src/jenkins_hash.c:101-152 | under every seed every vector is that of some key with given first chars, for every length with room for one more whole block |
| `JenkinsKeys.PrefixCollides` | cmph-2.0/src/jenkins_hash.c:101-152 | so every key has longer ones that go on from it with the same vector |
| `JenkinsExample.VectorOfA` | cmph-2.0/src/jenkins_hash.c:47-152 | the vector of the key "a" under the seed 1 |
| `HanovHash.OneCharDiffers` | examples/epmh.py:25-32 | keys of equal length that differ in one char have different hashes under every displacement |
| `HanovHash.DisplacementsDiffer` | examples/epmh.py:25-32 | on every key that is not empty, displacements above 0 give the same hash if and only if they agree modulo 2^32 |
| `HanovHash.HashParity` | examples/epmh.py:25-32 | the lowest bit of the hash is that of the displacement plus the sum of the chars |
| `HanovHash.HashOfA` | examples/epmh.py:25-32 | the first hash of the key "a" |
| `HanovRuns.ApartMore` | examples/epmh.py:74-76 | one more bucket keeps the slots of all keys different if and only if none of its slots belongs to a placed key |
| `HanovRuns.BucketPlaced` | examples/epmh.py:74-76 | after one more bucket every placed key is looked up to its value, as long as no two of them share a slot |
| `Hanov.FindDisplacement` | examples/epmh.py:57-72 | the smallest displacement that sends a bucket to different slots that look free, or none exists up to the limit |
| `Hanov.SomeSmall` | examples/epmh.py:52-54 | the first loop always ends at a bucket of at most one key |
| `Hanov.LargeSound` | examples/epmh.py:52-76 | step 2 keeps the tables sound, and its slots different if no key of its buckets has the value None |
| `Hanov.PlaceLarge` | examples/epmh.py:52-76 | step 2 gives each bucket the smallest displacement that works, or stops at the limit |
| `Hanov.SinglesSound` | examples/epmh.py:86-99 | step 3 gives away exactly as many slots as keys are left; all slots are different if and only if they were and none given away had an owner |
| `Hanov.PlaceSingles` | examples/epmh.py:86-99 | each bucket of one key takes the last slot of the free list, which never runs out |
| `Hanov.PerfectExact` | examples/epmh.py:38-104 | the slots of the keys are a permutation if and only if step 2 keeps them apart and no slot that step 3 gives away has an owner; then every key is looked up to its value |
| `Hanov.BlanksAloneRight` | examples/epmh.py:38-104 | they are when every key with the value None is alone in its bucket, and then the free list is empty at the end |
| `Hanov.OwnHomesBuilt` | examples/epmh.py:38-104 | when the first hash sends no two keys to the same bucket the tables are built without any search |
| `Hanov.CrowdedNeverEnds` | examples/epmh.py:59-72 | of an even number of keys, a bucket with more than half is placed under no displacement |
| `Hanov.TwoKeys` | examples/epmh.py:38-104 | two keys get tables if and only if the sums of their chars differ in the lowest bit |
| `Hanov.Create` | examples/epmh.py:38-104 | the tables of the three steps, with the three results above; when every key with the value None is alone in its bucket, every key of the dictionary is looked up to its value |
| `Hanov.BlankExample` | examples/epmh.py:38-112 | three keys: the lookup of the one with the value None gives the value of another |

## Left out

- Graphs.Graph.NextNeighbor: asks not to be called at the second half edge of a self-loop, where the source reads behind its table; no construction gets there.
- MillerRabin.CheckPrimality: asks for an argument other than 1, for which the source does not return (`MillerRabin.DecompositionEnds`).
- ChdPhHash.New: asks for at least as many keys as keys_per_bin times the load factor, since with fewer the source does not return (`ChdPhHash.OneBinNeverEnds`), and for at least one key.
- BdzHash.New: says nothing of a hypergraph with a vertex of degree above 256 but that the code stays inside its tables; the byte then decides (`Peeling.DegreeTestExact`).
- FchPlacing.ShortExact: for buckets of three and more keys the slots skipped depend on the exchanges of the failed attempts; `FchPlacing.PlacedFrom` follows them.
- JenkinsKeys.PrefixCollides: when the shorter key ends inside a block and the longer one has exactly one whole block more, it depends on the seed and the chars whether some longer key gets the same vector.
- Hanov.Create: the source tries displacements without end; the model stops at a limit and reports failure. It asks for at least one key, since without keys the source reads its loop variable before it has a value.
- CompressedSeq.Generate: asks for at least one value, since the total length is divided by their number, and that no value 2^32 - 1 lies behind a full table.
- Arithmetic overflow of sizes: the constructions ask for sizes whose sums (2m, 3r, n + m, total code length) fit 32 bits.
- bmz_traverse_critical_nodes_heuristic, the branch of bmz_new for small c: its queue is sized for half of the critical vertices.
- bmz8.c, brz.c and the buffer manager: an 8-bit copy of BMZ and partitioning in files.
- Rejection of composites by the bases 2, 7 and 61: it rests on an exhaustive computation, and no result here needs it. `MillerRabin.AcceptedIsFermat` is what holds for every accepted number.
- graph_del_edge and the debug checks (chd_ph_check_bin_hashing, printing): not used by the constructions.
- mph_map.h and the other containers of cxxmph: wrapping for the standard library.
- MphIndexes.MphIndex.Reset: asks for a block size of 2^2 to 2^31 vertices; blocks smaller than a byte or larger than a word would break the rank table.
- resize of dynamic_2bitset: it is not used by MPHIndex.
- Packed searches other than those of CHD, dumping and loading to files, key sources, the dispatch in cmph.c, memory ownership.
- Growth of the entry arrays in fch_buckets.c: buckets are sequences, reallocation is not modelled.
- Python's sort in epmh.py is the stable counting sort of FchBuckets, which gives the same order.
- Running time, space and the probability of success.
