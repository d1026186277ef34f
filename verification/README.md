# Zones, federations and packed matrices

UDBM represents the zones of timed automata as difference bound matrices (DBMs): entry (i, j) bounds xi - xj, and x0
is the reference clock.  The library is array code with early exits, updates in place and skipped work, while each
routine has a simple meaning as a set of real points.  This project models the routines as they are written and proves
what they mean.

- **Bounds and zones** (`Bounds`, `Zones`).  A bound is `Inf` or `Bound(value, weak)`; `PackedArithmeticIsExact` ties
  this algebra to the packed integers of include/dbm/constraints.h.  A zone is a set of valuations over `real`.
- **Closing** (`Closure`, `Closing`, `Constraining`, `Relations`, `Images`, `Updates`, `Relaxing`,
  `Extrapolation`, `Intersecting`, `Valuating`).  Matrices are `array2<Raw>` and are changed in place; `Mat(a)` is the value of an array.
- **Minimal graph and packed forms** (`MinimalGraph`, `Analysis`, `Words`, `Coding`, `Ranges`, `Restoring`, `Positions`,
  `Packed`, `Writing`, `Encoding`, `Reading`, `Recovering`, `Relating`, `Misreading`).
- **Federations** (`Federations`, `Subtraction`, `Reduction`, `ConvexReduction`, `Predecessor`, `PartitionTable`) and
  shared matrices (`Sharing`).
- **Priced zones** (`Priced`) and the spanning tree of the network simplex algorithm that serves them (`Preorders`,
  `Rerooting`, `SpanningTree`, `Flows`, `NetworkSimplex`).

`dafny verify dfyconfig.toml` checks the whole project.

## How the source is modelled

- CLOCKS_POSITIVE is true: a valid matrix is closed, not empty, and lets no clock be negative.
- Bounds are unbounded integers.  `Bounds.PackedArithmeticIsExact` shows that a sum of two valid packed bounds stays
  within 32 bits; the growth of bounds over long runs is left out.
- A bit string of touched clocks is a `set<int>`.  The bit tables of the minimal graph are arrays of 32-bit words and
  are read and written bit by bit.
- Packed memory is a sequence of 32-bit words, its 16-bit view is little-endian, and size_t has 64 bits.  Each pair of
  16-bit and 32-bit routines is one method with the width as a parameter, and the offset is 0.
- base_absNot comes from another library: `Ranges.AbsNot` takes it to give a number itself, or its complement when it
  is negative, as its name says.
- A federation is a sequence of matrix values, in the order of the list.  Choices made by heuristics are left open:
  the subtraction may pick any constraint that passes the tests, and `restrictedMerge` stands for a build option.
- In the spanning tree a node is its index, the missing predecessor of the root is the number of nodes, and "no leaving
  arc yet" is `None` where the source starts from INT_MAX.  Potentials and costs of arcs are not modelled.
- Methods are proved against functions on values; ghost parameters such as the walk through a thread, or the matrix
  that was packed, carry what the caller knows and are not read by the code.

## Model

| member | source | states |
|---|---|---|
| Bounds.PackedArithmeticIsExact | include/dbm/constraints.h:146-186 | on valid packed bounds, comparison, addition and negation of the integers are those of bounds; a sum fits 32 bits and is infinite only when an operand is |
| Bounds.OppositeIsExact | src/mingraph_write.c:409-412 | the zero-cycle test on decoded bounds is right although infinity decodes to a number |
| Bounds.LeMeansImplied | include/dbm/constraints.h:60-91 | a bound is at or below another exactly when every difference that meets it meets the other |
| Zones.Complete | src/fed_dbm.cpp:1633-1691 | on a closed matrix, values that agree on some clocks extend to all clocks without being moved |
| Closure.Tight | src/dbm.c:1020-1095 | every bound of a closed matrix is attained: any tighter one is violated somewhere in the zone |
| Closure.InclusionIsEntrywise | src/dbm.c:1398-1455 | a closed zone lies in another exactly when its matrix is below, entry by entry |
| Closure.CanonicalUnique | src/dbm.c:1020-1095 | a zone has one closed matrix |
| Closing.Close | src/dbm.c:1020-1095 | reports exactly whether the zone is empty; otherwise the same zone in closed form, whatever entries there were |
| Closure.ClosedFixesCanonical | src/dbm.c:1020-1095 | no step of the closing changes a closed matrix |
| Closing.CloseTouched | src/dbm.c:1137-1216 | closing over the touched clocks alone reports emptiness exactly and closes fully when the untouched clocks gave no improvement |
| Closing.TouchedClosingIsFull | src/dbm.c:1137-1216 | that partial closing gives the same matrix as full closing |
| Closing.CloseOne | src/dbm.c:1229-1264 | one Floyd step, with emptiness only if the zone is empty |
| Closing.CloseEntry | src/dbm.c:1288-1352 | after one entry of a closed matrix was tightened, the in-place row updates give the specified matrix, row by row |
| Closing.EntryClosingIsFull | src/dbm.c:1288-1352 | that matrix is the full closure of the tightened one |
| Constraining.Tighten | include/dbm/dbm.h:542-549 | the zone is cut by exactly the constraint, in closed form |
| Constraining.SatisfiesIsExact | include/dbm/dbm.h:449-454 | the test on two entries is true exactly when some point of the zone meets the constraint |
| Constraining.Constrain1 | src/dbm.c:410-438 | true exactly when a point is left; then the zone is cut by exactly the constraint |
| Constraining.ConstrainN | src/dbm.c:441-494 | with one closing at the end, exactly the conjunction of all constraints, or emptiness |
| Constraining.Intersection | src/dbm.c:232-281 | exactly the intersection of two zones, valid, or false exactly when they are disjoint |
| Constraining.HaveIntersection | src/dbm.c:343-364 | compares all pairs of opposite entries and nothing else |
| Constraining.IncompatibleIsDisjoint | src/dbm.c:334-364 | when that test says no, the zones are disjoint |
| Intersecting.PairwiseIsExactUpToThree | src/dbm.c:334-364 | when it says yes they intersect, for all valid zones, exactly up to dimension 3; from 4 on there are zones for which it is wrong |
| Relations.ZonesRelation | src/dbm.c:1398-1455 | the scan with its jumps returns exactly the set relation of the zones |
| Relations.IsSubsetEq | src/dbm.c:1458-1479 | exactly inclusion |
| Relations.ConvexUnion | src/dbm.c:201-219 | the entrywise maximum is valid without closing and is the smallest zone that contains both |
| Images.Up | src/dbm.c:533-542 | without closing, a valid matrix of exactly the points reached by delay |
| Images.Down | src/dbm.c:586-604 | without closing, a valid matrix of exactly the points from which delay leads into the zone, with no clock negative |
| Updates.FreeUp | src/dbm.c:762-773 | exactly the points that come from a lower value of the clock; stays closed |
| Updates.FreeDown | src/dbm.c:839-856 | exactly the points that come from a higher value of the clock; stays closed |
| Updates.FreeClock | src/dbm.c:735-756 | exactly the points that come from any value of the clock; stays closed |
| Updates.UpdateValue | src/dbm.c:708-724 | exactly the image of the reset; stays closed |
| Updates.Update | src/dbm.c:903-971 | exactly the image of xi := xj + value in all its special cases; stays closed |
| Relaxing.RelaxDownClock | src/dbm.c:1503-1530 | weakens the bounds on one side of a clock but for those that other strict bounds imply; valid without closing; adds exactly the points from which the clock only has to move up a little |
| Relaxing.RelaxUpClock | src/dbm.c:1536-1563 | the same for the other side |
| Relaxing.RelaxUpAddsLimits | include/dbm/dbm.h:616-628 | for the reference clock: adds exactly the points that were in the zone at every earlier moment of some span |
| Relaxing.RelaxAllIsClosure | src/dbm.c:1482-1493 | relaxing all bounds gives exactly the closure of the zone |
| Relaxing.RelaxAll | src/dbm.c:1482-1493 | valid without closing |
| Relaxing.TightenSide | src/dbm.c:1569-1649 | exactly the points strictly inside the bounds on one side, or false exactly when there are none |
| Valuating.CompletedExactly | src/fed_dbm.cpp:1633-1691 | over all valid matrices of a dimension, given values up to some top that agree with each other are completed to a point exactly when the dimension is at most 2 or the top is below 2^29 - (dimension - 3) |
| Valuating.SomeChainFails | src/fed_dbm.cpp:1633-1691 | at the limit and above, in every dimension from 3 on, a valid matrix and one given value for which the values picked are not a point, although there are points |
| Valuating.FillIsPoint | src/fed_dbm.cpp:1633-1691 | one matrix: the values picked are a point when the number for infinity is out of reach of as many steps as there are free clocks |
| Valuating.GivenAreKept | src/fed_dbm.cpp:1648-1688 | the values that were given are those of the point |
| Valuating.PickIsLeastInteger | src/fed_dbm.cpp:1675-1684 | of a range with integers in it the least one is picked |
| Valuating.PickIsGreatest | src/fed_dbm.cpp:1675-1684 | of a range without integers the greatest value is picked, if there is one |
| Valuating.GetValuation | src/fed_dbm.cpp:1633-1691 | the loops pick those values, and the result tells exactly whether they are a point |
| Extrapolation.ExtrapolateMaxBounds | src/dbm.c:1877-1926 | the result is valid and contains the zone, closed only when `changed` was set, and then over the active clocks; it keeps comparisons and small points as in the next two rows |
| Extrapolation.KeepsComparisons | src/dbm.c:1877-1926 | no comparison <, <=, > or >= of a clock with a constant up to its maximum tells the result from the zone |
| Extrapolation.KeepsSmallPoints | src/dbm.c:1877-1926 | a point within the maxima lies in the result exactly when some point of the zone has the same values for the clocks with a maximum; if all have one, exactly when it lies in the zone |
| Extrapolation.UnchangedIsClosed | src/dbm.c:1917-1922 | when no change was noted the loosened matrix is closed as it is |
| Extrapolation.CloseLU | src/dbm.c:57-106 | leaving out clocks without a maximum loses nothing of the closing |
| Extrapolation.FinitelyManyOutcomes | src/dbm.c:1877-1926 | for given maxima one finite set holds the result for every zone |
| MinimalGraph.KeptSuffice | src/mingraph_write.c:344-550 | the kept constraints imply all others although the redundant ones are dropped at once |
| MinimalGraph.KeptCloseBack | src/mingraph_write.c:344-550 | closing the kept constraints gives back the matrix |
| MinimalGraph.NoneCanGo | src/mingraph_write.c:344-550 | dropping any one kept constraint changes the closure and the zone |
| Analysis.Analyze | src/mingraph_write.c:344-550 | the tables of classes and the elimination mark exactly the kept constraints, and count them |
| Analysis.AnalyzeForMinDBM | src/mingraph_write.c:82-109 | the same for every dimension, with the precomputed answers for one and two clocks |
| Words.NGetAndSetBit | src/mingraph_coding.h:249-255 | sets one bit, changes no other, and returns the negation of what it was |
| Restoring.CleanBitMatrix | src/mingraph_write.c:552-582 | unmarks exactly the constraints that only say that a clock is not negative, and counts the rest |
| Restoring.RestoreIsExact | src/mingraph_read.c:331-398 | closing what was saved over the touched clocks, without those that only have lower bounds, gives back the matrix |
| Coding.HeaderFields | src/mingraph_coding.h:40-66 | every field of the type information word is read back as it was written |
| Coding.Raw16RoundTrip | src/mingraph_coding.h:171-203 | a constraint that fits 16 bits survives them, infinity included |
| Coding.CountReadBack | src/mingraph_coding.h:147-154 | the number of constraints is read back as written exactly outside 512..1023 |
| Ranges.SmallRangeFits | src/dbm.c:2190-2207 | what passes the range test can be coded on 16 bits, although only pairs of entries are looked at |
| Ranges.GetMaxRange | src/dbm.c:2190-2207 | the scan by pairs collects the bits of all entries but, in odd dimensions, the last |
| Ranges.RangeIsSmallExactly | src/dbm.c:2190-2207 | the test passes exactly when no finite entry needs more than 15 bits and some bit above the lowest is used by none; infinite entries and the last one do not matter |
| Ranges.NarrowHasFewBits | src/dbm.c:2190-2207 | in particular it passes when all finite entries lie from -0x4000 to 0x3fff |
| Positions.ListPairs | src/mingraph.c:46-90 | scanning the bit table lists exactly the marked pairs, row by row |
| Packed.PackedFormDeterminesMatrix | src/mingraph_write.c:119-174 | no two valid matrices have a packed form in common, in any of the six encodings |
| Writing.WriteMinBitMatrix | src/mingraph_write.c:920-1030 | header, constraints and bit table are all in place, on 16 or 32 bits |
| Writing.WriteMinCouplesij | src/mingraph_write.c:719-902 | header, constraints and packed couples are all in place, for indices on 4, 8 or 16 bits |
| Packed.NoWordToSpare | src/mingraph_write.c:250-283 | the words set aside for the constraints and for the couples of indices are the least numbers that have room for them |
| Encoding.Encode | src/mingraph_write.c:230-331 | the result is a packed form of the matrix, and no packed form of it with constraints of the same width, and indices wide enough for the dimension, is smaller |
| Encoding.WriteToMinDBM | src/mingraph_write.c:119-174 | for all flags the result is a packed form of the matrix, which one is stated, and 16 bits are used exactly when that is asked for (or there are two clocks), constraints are written and their bits allow it |
| Reading.SizeIsRecovered | src/mingraph.c:99-148 | the size computed from a packed form is the size allocated exactly when no minimal form holds 512..1023 constraints |
| Reading.ReadFromMinDBM | src/mingraph_read.c:115-143 | whatever the encoding, the packed matrix comes back when its count is read right |
| Reading.PackUnpack | src/mingraph_write.c:119-174 | packing and unpacking is the identity, for all flags, unless a minimal form with such a count is written |
| Misreading.SomeMatrixIsMisread | src/mingraph_coding.h:147-154 | a valid matrix of dimension 51 for which the writer picks a minimal form with 600 constraints, so that its size is not recovered |
| Recovering.AddMissingConstraints | src/mingraph_read.c:693-757 | adds exactly the kept lower bounds that were not saved |
| Recovering.BitMatrixFromMinDBM | src/mingraph_read.c:153-189 | the bit table recovered from a packed form, by the reader of each encoding and with the matrix unpacked or not, is the one the analysis gives on the matrix |
| Recovering.BitMatrixFromCouples | src/mingraph_read.c:807-940 | the same for couples of indices, where the constraints are written over the matrix and closed over all clocks |
| Relating.RelationWithMinDBM | src/mingraph_relation.c:73-118 | with a buffer the exact relation with the packed matrix, unpacked or not; without one exactly inclusion |
| Relating.CompareSaved | src/mingraph_relation.c:451-672 | from the saved constraints alone, exactly inclusion; isExact is set exactly when, in their order, a strictly tighter one is seen before one that does not hold, and then the answer is the whole relation |
| Relating.CompareCopy | src/mingraph_relation.c:181-442 | the scan of a copy with its jumps gives the exact relation |
| Sharing.DbmRef.PtrUp | src/fed_dbm.cpp:904-927 | the matrix of dbm_up; other holders keep theirs; copied exactly when something changes |
| Sharing.DbmRef.PtrDown | src/fed_dbm.cpp:943-974 | the same for dbm_down, going on from the first lower bound that changes |
| Sharing.DbmRef.PtrFreeClock | src/fed_dbm.cpp:976-1004 | the same for dbm_freeClock |
| Sharing.DbmRef.PtrFreeDown | src/fed_dbm.cpp:1006-1034 | the same for dbm_freeDown |
| Sharing.DbmRef.PtrFreeUp | src/fed_dbm.cpp:1036-1064 | the same for dbm_freeUp |
| Sharing.DbmRef.PtrUpdateValue | src/fed_dbm.cpp:1121-1156 | the same for dbm_updateValue, diagonal included |
| Sharing.DbmRef.PtrUpdateClock | src/fed_dbm.cpp:1158-1186 | the same for dbm_updateClock |
| Sharing.DbmRef.PtrUpdate | src/fed_dbm.cpp:1188-1222 | the same for dbm_update |
| Sharing.DbmRef.ICopy | include/dbm/inline_fed.h:1487-1493 | a private copy of the same value, and one holder less of the old one |
| Federations.RemoveIncluded | src/fed.cpp:504-531 | what is left of two lists, each still of its own members, has the same union and stays disjoint; no member left of one lies in one of the other |
| Subtraction.InternSubtract | src/fed.cpp:249-376 | pairwise disjoint valid matrices whose union is exactly dbm1 minus dbm2, for any order of constraints, and at most one for each constraint that cuts dbm1 |
| Subtraction.SubtractDbm | src/fed.cpp:3478-3522 | exactly the difference, and a disjoint list stays disjoint |
| Subtraction.SubtractFed | src/fed.cpp:1540-1566 | the same for a federation |
| Reduction.Reduce | src/fed.cpp:533-565 | the same union, and no member left lies in another |
| Reduction.Compare | src/fed.cpp:596-632 | the scan gives up exactly on zones with opposed bounds; otherwise it finds inclusion both ways, how many clocks agree with an earlier one on both bounds, and whether any two bounds agree |
| Reduction.OpposedUnion | src/fed.cpp:567-572 | zones with opposed bounds lose nothing by being skipped: no zone is their union |
| Reduction.MergeReduce | src/fed.cpp:575-703 | the same union by a list that is no longer, or the list itself; behind the head no member lies in an earlier one or holds it, and none agrees with it in enough rows while the union of the two is a zone, or, above level 1, while some zone holds both and stays in the union of the list |
| Reduction.ExpensiveReduce | src/fed.cpp:2033-2069 | the same union, never made empty, a correct report whether the head was kept, and no member left lies in the union of the others |
| ConvexReduction.Visit | src/fed.cpp:2071-2232 | one visit keeps the union; either the list gets shorter, or it is only put in a new order behind the visited member, which combines with no later one and does not make up a zone with those that join it; a jump always leads to a member |
| ConvexReduction.CheckHull | src/fed.cpp:2178-2217 | the list gets shorter when the hull adds nothing to the members compared, and when one of these lies in the union of the others |
| ConvexReduction.ConvexReduce | src/fed.cpp:2071-2232 | the same union, and it terminates; the list gets shorter when some member lies in another, when two agree on both bounds of some pair of clocks and their union is a zone, and when the first makes up a zone with the members that join it |
| Predecessor.FedDown | src/fed.cpp:1833-1839 | exactly the points from which delay leads into the federation |
| Predecessor.Steal | include/dbm/inline_fed.h:1720-1724 | the union of two federations, with the appended members reduced |
| Predecessor.IntersectFed | src/fed.cpp:1480-1509 | exactly the intersection of two federations |
| Predecessor.FormulaIsExact | src/fed.cpp:2807-2850 | for one good and one bad zone, the formula gives exactly the points that can delay into good and avoid bad |
| Predecessor.LeastDelay | src/fed.cpp:2741-2802 | the least of the delays that work for the single bad zones works for all of them |
| Predecessor.Predt | src/fed.cpp:2741-2802 | in all four cases of its dispatch, exactly the points that can delay into good while every point on the way, its end included, avoids bad |
| Predecessor.PredtDbm | src/fed.cpp:2807-2850 | the same for a single bad zone, whose past is computed when it is first needed |
| PartitionTable.HomeIsRemainder | src/partition.cpp:107 | the search for an id starts at its remainder by the size of the table |
| PartitionTable.FedTable.Add | src/partition.cpp:114-173 | the subset grows by exactly the points that are new, no other subset changes, `all` grows by fed, and the invariant is kept |
| PartitionTable.FedTable.Larger | src/partition.cpp:176-199 | every subset is found in the larger table as it was |
| PartitionTable.FedTable.Copy | src/partition.cpp:214-229 | the same slots and union in a table of its own |
| PartitionTable.Partition.Add | src/partition.cpp:55-68 | the same for a partition, and no copy of it notices |
| PartitionTable.Partition.Get | include/dbm/partition.h:106-110 | the subset stored under the id narrowed to 32 bits |
| PartitionTable.GetFindsWhatAddStored | include/dbm/partition.h:99-110 | get finds what add stored, for every table, exactly when the id has 32 bits |
| PartitionTable.WideIdIsLost | src/partition.cpp:105-112 | what is added under 2^32 is looked for under 0 |
| PartitionTable.SubsetsAreDisjoint | include/dbm/partition.h:87-99 | different subsets of a partition share no point |
| PartitionTable.SubsetsCover | src/partition.cpp:114-173 | the union of the subsets is what `all` holds |
| Priced.Constrain1 | src/priced.cpp:202-256 | true exactly when a point is left; the zone is cut exactly, every point keeps its cost, and other holders notice nothing |
| Priced.ConstrainN | src/priced.cpp:258-290 | the same for a list of constraints, of which those that cut nothing are skipped |
| Priced.UpdateValue | src/priced.cpp:695-705 | a reset point costs what its pre-image cost, and the cached infimum stays right |
| Priced.UpdateValueZero | src/priced.cpp:707-723 | the same for a clock with a rate, which a clock tied to it takes over |
| Priced.Up | src/priced.cpp:668-676 | delay costs the sum of the rates; the cached infimum stays right exactly when that is not negative |
| Priced.UpZero | src/priced.cpp:678-693 | delay by d costs rate * d more; the cached infimum stays right exactly when the rate is not negative |
| Priced.FreeUp | src/priced.cpp:1265-1271 | points keep their cost, and the cached infimum stays right |
| Priced.FreeDown | src/priced.cpp:1273-1290 | the same although the offset point moves |
| Priced.Relax | src/priced.cpp:1145-1157 | with some clock besides the reference: all bounds are weak, points keep their cost, and the points added on the border do not change the infimum |
| Priced.RelaxMeetsItsEnd | src/priced.cpp:1145-1157 | the pointer of its loop meets the end, and starts inside the matrix, exactly when the dimension is above 1 |
| Priced.FreeClock | src/priced.cpp:1177-1185 | points cost what they cost before the clock was freed; a holder of a shared zone keeps what it had exactly when, for every other clock i, entry (k, i) was infinite and entry (i, k) was entry (i, 0) |
| Priced.FreeForOneHolder | src/priced.cpp:1177-1185 | of two holders of 0 <= x <= 5 one frees x, and the other's zone holds all points above 5 too |
| Priced.GetCostOfValuation | src/priced.cpp:1132-1143 | the cost of the point |
| Priced.OffsetHasCost | include/dbm/priced.h:29-41 | the recorded cost is the cost at the offset point |
| Preorders.BlockIsSubtree | src/infimum.cpp:141-200 | from every node of a block of the thread the predecessors lead to its first node |
| Preorders.SubtreeIsBlock | src/infimum.cpp:141-200 | and every node from which they do is in the block |
| SpanningTree.Tree.FindLastNodeBefore | src/infimum.cpp:315-323 | the node from which the thread goes on to the excluded one |
| SpanningTree.Tree.FindLastNodeAbove | src/infimum.cpp:330-338 | the last node of a subtree, found by depth |
| SpanningTree.Tree.UpdateThread | src/infimum.cpp:364-440 | the thread becomes a cyclic preorder of the re-rooted tree |
| NetworkSimplex.UpdateNonRootSubtree | src/infimum.cpp:364-469 | predecessors, depths, thread, flow and direction of the arcs are those of the re-rooted tree, which spans all nodes |
| NetworkSimplex.DiscoverCycleRoot | src/infimum.cpp:566-576 | the first node that the ways from k and l to the root have in common |
| NetworkSimplex.FindLeavingArc | src/infimum.cpp:594-632 | among the opposing arcs with the least flow, the last one in the direction of the entering arc from the root of the cycle |
| NetworkSimplex.UpdateFlowInCycle | src/infimum.cpp:477-491 | flow goes once around the cycle |
| NetworkSimplex.UpdateSpanningTree | src/infimum.cpp:497-509 | the arcs after a pivot, and a tree that spans all nodes |
| NetworkSimplex.PivotConserves | src/infimum.cpp:477-509 | supply and demand of every node stay met |
| NetworkSimplex.PivotFeasible | src/infimum.cpp:594-632 | no flow turns negative and no arc without flow points away from the root, because of the strict and the weak comparison |
| NetworkSimplex.Pivot | src/infimum.cpp:691-748 | one turn of the main loop, for any entering arc that some arc opposes, keeps the spanning tree, the balance of flow and strong feasibility, and exchanges arcs as in the next row |
| NetworkSimplex.PivotExchanges | src/infimum.cpp:594-748 | one of k and l comes to hang under the other by an arc from k to l; it replaces an opposing arc with the least flow and carries that flow, which has gone around the cycle; every other arc stays in the tree and, off the cycle, keeps its flow |
| NetworkSimplex.FindInitialSolution | src/infimum.cpp:251-280 | the initial tree has all three properties |

## Findings

- **Counts from 512 to 1023.**  src/mingraph_coding.h:147-154 shifts the header as a signed number and widens it to
  size_t, so that a count that reaches the sign bit is read back wrong: `Coding.CountReadBack`,
  `Reading.SizeIsRecovered` and, with a matrix for which it happens, `Misreading.SomeMatrixIsMisread`.
- **The pairwise intersection test.**  The comment at src/dbm.c:334-341 argues from convexity that zones intersect when
  each pair of clocks leaves room; include/dbm/dbm.h:147-148 only promises that the intersection "may be non empty".
  The claim of the comment holds exactly up to dimension 3: `Intersecting.PairwiseIsExactUpToThree`.
- **Wide ids.**  A partition stores ids of 64 bits but looks them up by 32 bits: `PartitionTable.GetFindsWhatAddStored`
  and `PartitionTable.WideIdIsLost`.
- **Freeing a clock of a shared priced zone.**  include/dbm/priced.h:38-44 says that every function that modifies a
  shared priced DBM copies it first; pdbm_freeClock (src/priced.cpp:1177-1185) does not.  Other holders keep
  their zone exactly when the guard that dbm_t::ptr_freeClock tests holds for every clock (`Priced.FreeClock`); with a
  count of 2 and the zone 0 <= x <= 5 they do not (`Priced.TwoHolders`, `Priced.FreeForOneHolder`).
- **Relaxing without clocks.**  include/dbm/priced.h:32 allows every positive dimension, but the loop of pdbm_relax
  (src/priced.cpp:1145-1157) starts at the second entry and runs until it meets the last: in dimension 1 it starts
  behind it and writes past the matrix.  `Priced.RelaxMeetsItsEnd` shows that this happens in dimension 1 only, and
  `Priced.Relax` asks for a larger one.
- **Values near infinity.**  ptr_getValuation compares with the number that infinity decodes to.  Over all valid
  matrices of dimension n >= 3, given values that agree with each other are completed to a point as long as they stay
  below 2^29 - (n - 3), and not above: `Valuating.CompletedExactly`.  The failing input is the chain
  x1 < x2 < ... < x(n-2) with x(n-1) > x(n-2) + 2^29 - 1 and x1 given: `Valuating.SomeChainFails`.
- **Cached infimum.**  pdbm_up and pdbm_upZero leave the cached infimum as it is, which is right exactly when delay does
  not make points cheaper: `Priced.Up`, `Priced.UpZero`.  The debug check pdbm_isValid (src/priced.cpp:1159-1175) asks for
  the same of every unbounded zone, which the zone is after a delay.

## Left out

- Intersecting.PairwiseIsExactUpToThree: says for which dimensions the test is right, not for which pairs of zones from dimension 4 on.
- Valuating.GetValuation: computes over exact reals; the rounding of doubles and the tolerance of their comparisons are not modelled.
- Predecessor.Predt: only without the `restrict` argument.
- NetworkSimplex.Pivot: is about the tree and the flow; the choice of the entering arc, potentials, optimality and the value of the infimum are not modelled.
- Subtraction.InternSubtract: the rating of constraints is left open, which covers every rating but bounds the number of pieces only by that of the constraints.
- Reduction.MergeReduce: at level 1 it is stated only that pairs whose union is a zone are merged, not those whose hull adds pieces that each lie in another member.
- ConvexReduction.ConvexReduce: for hulls of more than two members it speaks of the first member only, because those set aside change places; for the others see `ConvexReduction.CheckHull`.  The attempt to find a shorter list by subtracting from the hull is only said to keep the union.
- PartitionTable.FedTable.Add: which of two lists for the new points goes to `all` is a matter of size and not stated.
- Reading.PackUnpack: the offset in front of the packed form is 0.
- Federation lists share no matrices in the model; copy-on-write is modelled for one matrix (`Sharing`), for partitions and for priced zones.
- The other in-place operations that look before they copy: ptr_freeAllUp, ptr_freeAllDown, the shared variants of the relaxing and tightening operations, ptr_swapClocks.
- dbm_approxRelationWithMinDBM and the convex union with a packed matrix (src/mingraph.c:155-280), which combine routines that are modelled.
- dbm_writeAnalyzedDBM, mingraphs kept in memory, dbm_updateDBM and dbm_shrinkExpand.
- The diagonal and LU extrapolations (src/dbm.c:1941-2093); their soundness for automata needs a simulation argument about the automaton.
- up_stop and down_stop: with stopped clocks the true image need not be a zone.
- pdbm_relation, pdbm_getInfimum and the facets, which rest on the value of the infimum.
- subtractDown, isIncludedInPredt, succt, splitExtrapolate, expensiveConvexReduce and partitionReduce.
- Subtraction algorithms 0 to 2 and the vectorized Floyd loop, which are other builds of the same operations.
- Hash tables of matrices (intern), the allocator, printing, statistics, random generation.
- 32-bit overflow of bounds, costs and flows.
