# aoc2025 in Dafny

This project models the core of the Advent of Code 2025 solutions in the
`aoc2025` repository. That core has two parts.

- The generic Dijkstra engine of `src/dijkstra.rs`:
  - the `PrevPathSet` accumulators, which record one best predecessor or all tied ones;
  - `run`, which pops the cheapest (cost, node) pair from a min-heap, finalizes the node and relaxes its edges;
  - `extract_path`, `extract_all_paths` and `count_all_paths`, which walk the predecessor table back from a node.
- The pure logic of the day 1 to day 12 solvers in `src/bin`:
  - day 1: the dial;
  - day 2: repeated-digit IDs;
  - day 3: battery banks;
  - day 4: paper rolls;
  - day 5: ingredient ranges;
  - day 6: the math worksheet;
  - day 7: tachyon beams;
  - day 8: junction-box circuits;
  - day 9: red-tile rectangles;
  - day 10: light-switch puzzles, solved with the Dijkstra engine;
  - day 11: device paths;
  - day 12: present regions.

The model follows the modules of the program. Each solver is one Dafny module
(`Day1P1` ... `Day12P1`). Shared pieces have their own modules:

- `Wrappers`: `Option`.
- `Graph`: adjacency and reachability layers.
- `PrevPaths`, `Dijkstra` and `PathWalks`: the engine.
- `Bits`: integer bit toggling.
- `Decimal`: digit strings, `to_string` and `parse`.
- `Ranges`: `in_range`.
- `Sorting`: `sorted_by_key` and `rev`.
- `Pairing`: `combinations(2)`.
- `Clusters`: the circuit bookkeeping of day 8.

Some source operations can panic: an `unwrap` of `None`, an out-of-bounds
index, an `unreachable!`, a failed `assert!`, or an unsigned underflow. The
model returns `None` for these, and the contracts say when it happens:
exactly, except where "## Left out" names a member that states only a
necessary condition.

The source of each operation is cited by path and line, relative to the
repository root. Where the source always ends but Dafny cannot see why (the
queue search of day 11 and the beam loop of day 7), a ghost measure proves
that the model ends. Where the source may loop forever (day 11 on a cycle,
day 7 part two on two adjacent splitters), the model states the condition.

## Model

| member | source | states |
|---|---|---|
| PrevPaths.Init | src/dijkstra.rs:21-34 | `init(v)` records `v` alone, for both the single-best and the all-best accumulator |
| PrevPaths.Append | src/dijkstra.rs:17-30 | `append(v)` replaces the single best predecessor and adds `v` at the end of the list of all best ones |
| PrevPaths.SingleKeepsLastOfAll | src/dijkstra.rs:16-35 | fed the same values, the list records all of them in order and the single accumulator holds the last one the list holds |
| Graph.LayerStep | src/dijkstra.rs:48-51 | one edge from a node reached within `k` steps lands within `k + 1` steps |
| Graph.LayerPredecessor | src/dijkstra.rs:48-51 | a node first reached in `k` steps has a neighbour reached in `k - 1` steps with an edge to it |
| Graph.LayerMonotone | src/dijkstra.rs:48-51 | more steps never reach fewer nodes |
| Dijkstra.PopMin | src/dijkstra.rs:116-120 | the pair the `Reverse` min-heap pops is in the heap and no heap entry orders before it |
| Dijkstra.PopFresh | src/dijkstra.rs:116-122 | the popped node is tentative and not yet finalized, so the `unwrap` of line 121 never fails |
| Dijkstra.PopStep | src/dijkstra.rs:116-122 | popping the least entry and moving its node to `visited` keeps the loop invariants: costs never drop below the last popped one, every recorded predecessor is a finalized earlier neighbour at the right cost, and the finalization order is recorded |
| Dijkstra.RelaxEdge | src/dijkstra.rs:125-141 | visited targets are skipped; an unseen target is pushed on the heap with the new cost and `cur` as its predecessor; a cheaper cost replaces the old one and restarts the predecessors at `cur`; an equal cost appends `cur`; a dearer cost changes nothing, and the heap is pushed only for unseen targets |
| Dijkstra.RelaxPredsTarget | src/dijkstra.rs:130-140 | after relaxation every predecessor recorded for the target is a finalized neighbour whose cost plus the edge is the target's cost |
| Dijkstra.RelaxedAtEdge | src/dijkstra.rs:129-141 | after relaxing the edge, its target is either finalized no later than `cur` or tentative at a cost no greater than the cost through `cur` |
| Dijkstra.RelaxStep | src/dijkstra.rs:125-141 | relaxing the `j`-th edge of `cur` keeps the loop invariants and leaves the first `j + 1` edges relaxed |
| Dijkstra.Finished | src/dijkstra.rs:144-147 | when the heap is empty no node is still tentative and every edge out of a finalized node leads to a finalized node |
| Dijkstra.TablePred | src/dijkstra.rs:121-140 | a recorded predecessor of a finalized node is a finalized neighbour, finalized earlier |
| Dijkstra.TableWellFormed | src/dijkstra.rs:98-142 | the finalized map read as a table holds the start with itself as predecessor, and every other predecessor is a finalized neighbour of lower rank |
| Dijkstra.TableReachable | src/dijkstra.rs:94-96 | every node of the returned map is reachable from the start |
| Dijkstra.LayersInTable | src/dijkstra.rs:94-96 | every node reachable from the start is in the returned map |
| Dijkstra.TableReach | src/dijkstra.rs:94-96 | the returned map holds exactly the nodes reachable from the start |
| Dijkstra.TableUnit | src/dijkstra.rs:129-140 | with unit edge costs every finalized cost is its popped cost, and each predecessor's cost is exactly one less |
| Dijkstra.UnitInLayer | src/dijkstra.rs:129-140 | with unit edge costs, a node listed at the start cost plus `k` is reached in `k` steps |
| Dijkstra.UnitLayerCost | src/dijkstra.rs:129-140 | with unit edge costs, a node reached in `k` steps is listed at most at the start cost plus `k` |
| Dijkstra.UnitMinHops | src/dijkstra.rs:129-140 | with unit edge costs every listed cost is the start cost plus the fewest hops to the node |
| Dijkstra.ConcludedTable | src/dijkstra.rs:144-149 | at loop exit the finalized map holds the start at its start cost, is closed under edges, and has an acyclic predecessor relation |
| Dijkstra.ConcludedUnit | src/dijkstra.rs:144-149 | at loop exit with unit edge costs, every cost is the start cost plus the fewest hops |
| Dijkstra.RelaxNeighbours | src/dijkstra.rs:124-142 | relaxing every edge out of the finalized node keeps the invariants, relaxes all of its edges and finalizes nothing |
| Dijkstra.ExploreStep | src/dijkstra.rs:116-142 | one iteration keeps the invariants and finalizes one more node, so the loop ends |
| Dijkstra.Explore | src/dijkstra.rs:98-147 | the loop ends with an empty heap and the invariants intact |
| Dijkstra.Run | src/dijkstra.rs:97-150 | the returned map holds exactly the nodes reachable from the start; the start is listed at its start cost with itself as predecessor; no cost is below the start cost; predecessors form an acyclic relation of graph edges; with unit edge costs every cost is the start cost plus the fewest hops |
| PathWalks.SelfPredIsRoot | src/dijkstra.rs:98-99 | only the start node names itself as its predecessor |
| PathWalks.SelfListedIsRoot | src/dijkstra.rs:98-99 | only the start node lists itself among its predecessors |
| PathWalks.Chain | src/dijkstra.rs:160-162 | following first predecessors from a listed node ends at the start node |
| PathWalks.ChainMember | src/dijkstra.rs:160-162 | below a node other than the start, the chain continues from its predecessor |
| PathWalks.ChainWalk | src/dijkstra.rs:152-166 | the chain of predecessors is a walk of the graph, read backwards |
| PathWalks.ChainLast | src/dijkstra.rs:152-166 | the start node appears on a chain only at its end |
| PathWalks.ChainCosts | src/dijkstra.rs:129-140 | with unit costs each step along the chain lowers the cost by exactly one |
| PathWalks.ExtractPath | src/dijkstra.rs:152-166 | for `start != end` the path exists exactly when `start` lies on the predecessor chain from `end`; it is that chain up to but without `start`, end first; `start == end` gives the empty path; a missing entry is the panic of line 161 |
| PathWalks.ExtractCons | src/dijkstra.rs:160-164 | putting `end` in front of the path from its predecessor gives the path from `end` |
| PathWalks.ExtractFromRoot | src/bin/day10p1.rs:134-137 | from the start node every listed node has a path; the path is a walk; with unit costs its length is the node's cost minus the start cost |
| PathWalks.AllPathsAux | src/dijkstra.rs:168-187 | every path found is a predecessor walk from `end` to `start`, placed behind `prefix` |
| PathWalks.AllPathsOver | src/dijkstra.rs:178-185 | the loop over the predecessors finds only predecessor walks from `end` |
| PathWalks.ExtendsStep | src/dijkstra.rs:179-183 | paths found from a predecessor behind `prefix + [q]` are paths from `end` behind `prefix` |
| PathWalks.OverContains | src/dijkstra.rs:179-184 | the paths found from each predecessor are among those the loop collects |
| PathWalks.AllPathsComplete | src/dijkstra.rs:168-187 | every predecessor walk from `end` to `start` is among the paths found |
| PathWalks.AllPathsFromRoot | src/dijkstra.rs:168-187 | from the start node, no `unwrap` in the search fails for a listed node |
| PathWalks.ExtractAllPaths | src/dijkstra.rs:189-195 | every path listed is a predecessor walk from `end` to `start` that begins at `end` |
| PathWalks.CountIsLength | src/dijkstra.rs:197-216 | the memo-free count fails exactly when the path listing does, and otherwise equals the number of paths listed |
| PathWalks.CountLoop | src/dijkstra.rs:209-213 | the loop adds each predecessor's count to the running count; the memo stays sound and holds the running count for `(start, end)` |
| PathWalks.CountAux | src/dijkstra.rs:197-216 | the memoised count equals the number of predecessor walks; every memo entry it leaves is a correct count |
| PathWalks.CountAllPaths | src/dijkstra.rs:218-225 | with a fresh memo the count succeeds exactly when `extract_all_paths` does, and equals the number of paths it lists |
| Bits.Toggle | src/bin/day10p1.rs:96-98 | `s ^ (1 << k)` flips bit `k` and keeps every other bit |
| Bits.ToggleTwice | src/bin/day10p1.rs:96-98 | toggling the same bit twice restores the value |
| Bits.ToggleInRange | src/bin/day10p1.rs:96-98 | toggling a bit below `w` keeps a `w`-bit value within `w` bits |
| Bits.HighBitsClear | src/bin/day10p1.rs:86-94 | a value below `2^w` has no bit at or above `w` |
| Day10P1.InitFrom | src/bin/day10p1.rs:86-94 | the loop from light `n` on sets exactly the bits of the lit lights from `n` on |
| Day10P1.InitState | src/bin/day10p1.rs:86-94 | bit `j` of the goal mask is set exactly when light `j` is lit |
| Day10P1.LightsRoundTrip | src/bin/day10p1.rs:86-94 | decoding the encoded goal gives the goal back, and encoding a decoded mask gives the mask back |
| Day10P1.Universe | src/bin/day10p1.rs:100-102 | the state set holds exactly the 32-bit masks |
| Day10P1.PressBits | src/bin/day10p1.rs:108-112 | a press flips exactly the lights the button lists an odd number of times |
| Day10P1.PressTwice | src/bin/day10p1.rs:108-112 | pressing a button twice restores the lights |
| Day10P1.PressCommutes | src/bin/day10p1.rs:108-112 | presses of two buttons commute |
| Day10P1.PressInRange | src/bin/day10p1.rs:108-112 | a press keeps a 32-bit mask within 32 bits |
| Day10P1.Adjacent | src/bin/day10p1.rs:104-116 | one unit-cost edge per button, in button order, to the state that button's press gives |
| Day10P1.AdjacentClosed | src/bin/day10p1.rs:104-116 | the press graph stays within the 32-bit masks and all of its edges cost one |
| Day10P1.LayerIsPresses | src/bin/day10p1.rs:104-116 | the states reached within `k` steps are exactly those that some sequence of at most `k` presses reaches |
| Day10P1.ReachedAtStart | src/bin/day10p1.rs:134 | no presses leave every light off, the start state |
| Day10P1.EdgeHasPresses | src/bin/day10p1.rs:104-116 | following edge `i` of the press graph is pressing button `i` |
| Day10P1.StepHasPresses | src/bin/day10p1.rs:104-116 | pressing one more button after `k` presses is reached within `k + 1` presses |
| Day10P1.PressesInLayer | src/bin/day10p1.rs:104-116 | the state after a sequence of presses is reached within that many steps |
| Day10P1.FewestIsMinHops | src/bin/day10p1.rs:131-137 | the fewest hops to the goal in the press graph are the fewest presses that light the goal |
| Day10P1.FewestUnique | src/bin/day10p1.rs:131-137 | the fewest number of presses is unique |
| Day10P1.FewestPresses | src/bin/day10p1.rs:131-137 | the extracted path exists exactly when some presses light the goal, and its length is then the fewest number of presses |
| Day10P1.TotalStep | src/bin/day10p1.rs:124-138 | adding one solved puzzle adds its fewest presses to the running total |
| Day10P1.Answer | src/bin/day10p1.rs:124-140 | the answer exists exactly when every puzzle is solvable, and is then the sum of each puzzle's fewest presses |
| Decimal.Digits | src/bin/day2p1.rs:69 | `to_string` gives a canonical digit string whose last digit is the value mod 10 |
| Decimal.ValueOfDigits | src/bin/day2p1.rs:67-73 | parsing a printed number gives the number back |
| Decimal.DigitsOfValue | src/bin/day2p1.rs:67-73 | printing a parsed canonical digit string gives the string back |
| Decimal.ValueAppend | src/bin/day2p1.rs:70-72 | appending digits shifts the earlier digits by a power of ten |
| Decimal.ValueBelow | src/bin/day2p2.rs:61-64 | a string of `n` digits denotes a number below `10^n` |
| Decimal.ValueAtLeast | src/bin/day2p2.rs:61-64 | `n` digits with a leading non-zero digit denote at least `10^(n-1)` |
| Decimal.NumDigitsBounds | src/bin/day2p2.rs:61-64 | a number lies between `10^(n-1)` and `10^n - 1`, where `n` is its digit count |
| Decimal.LeadingDigit | src/bin/day2p1.rs:69 | a positive number is printed without a leading zero |
| Decimal.NumDigitsMono | src/bin/day2p2.rs:61-64 | larger numbers never have fewer digits |
| Decimal.LongerIsLarger | src/bin/day2p2.rs:61-64 | a digit string denotes less than any longer one without a leading zero |
| Decimal.LexGeValue | src/bin/day3p2.rs:75-79 | among digit strings of one length, dictionary order is numeric order |
| Decimal.RepeatLength | src/bin/day2p2.rs:76-78 | `k` copies of a digit string are `k` times as long |
| Day1P1.Apply | src/bin/day1p1.rs:76-83 | a turn keeps the dial within 0..99 |
| Day1P1.Clicks | src/bin/day1p1.rs:76-83 | single clicks keep the dial within 0..99 |
| Day1P1.ApplyIsClicks | src/bin/day1p1.rs:76-83 | a turn by `n` by floor modulus is `n` single clicks, each wrapping between 0 and 99 |
| Day1P1.LeftRightInverse | src/bin/day1p1.rs:76-83 | a left turn and a right turn by the same distance undo each other |
| Day1P1.ZeroStops | src/bin/day1p1.rs:95-100 | no more turns stop at 0 than there are turns |
| Day1P1.ZeroStopsAppend | src/bin/day1p1.rs:95-100 | stops at 0 add up over consecutive runs of turns |
| Day1P1.Final | src/bin/day1p1.rs:95-100 | after any run of turns the dial is within 0..99 |
| Day1P1.Answer | src/bin/day1p1.rs:90-104 | starting at 50, the count is the number of turns that leave the dial at 0 |
| Day1P2.ZeroClicks | src/bin/day1p2.rs:77-113 | at most one landing on 0 per click |
| Day1P2.ZeroClicksCount | src/bin/day1p2.rs:77-113 | the landings on 0 are the multiples of 100 in `[pos - n, pos - 1]` turning left and in `[pos + 1, pos + n]` turning right |
| Day1P2.ApplyCounting | src/bin/day1p2.rs:77-113 | as written, the turn ends where the first reading's turn ends |
| Day1P2.LeftCount | src/bin/day1p2.rs:81-97 | except for a left turn by 0 from 0, the left branch's count is the closed-form number of landings |
| Day1P2.RightCount | src/bin/day1p2.rs:100-109 | the right branch's count is the closed-form number of landings |
| Day1P2.LeftZeroAtZero | src/bin/day1p2.rs:81-97 | as written, a left turn by 0 from 0 counts one landing although no click happens |
| Day1P2.AsWrittenCounts | src/bin/day1p2.rs:77-113 | for every other turn, the count as written is the number of clicks that land on 0 |
| Day1P2.Turned | src/bin/day1p2.rs:77-113 | the corrected turn ends where the turn as written ends, and equals it except for a left turn by 0 from 0 |
| Day1P2.TurnedCounts | src/bin/day1p2.rs:77-113 | the corrected count is the number of clicks that land on 0, for every turn |
| Day1P2.ApplyCountingSplit | src/bin/day1p2.rs:77-113 | as written, a turn counts the clicks that land on 0, plus one for a left turn by 0 from 0 |
| Day1P2.Answer | src/bin/day1p2.rs:116-128 | as written, starting at 50: the clicks that land on 0 over all turns, plus one for every left turn by 0 taken with the dial at 0 |
| Day1P2.CorrectedAnswer | src/bin/day1p2.rs:116-128 | with the corrected turn, starting at 50: exactly the clicks that land on 0 over all turns |
| Day1P2.IdleTurnCountsTwice | src/bin/day1p2.rs:116-128 | the turns `L50`, `L0` from 50 have one click landing on 0, yet the program as written counts two |
| Ranges.InRange | src/bin/day2p1.rs:48-55 | true exactly when some range holds the value |
| Ranges.OutOfRangeIsFinal | src/bin/day2p1.rs:57-59 | once a value is past every range, so is every larger value, and none of them is in a range |
| Ranges.MaxEnd | src/bin/day2p2.rs:62 | the largest range end: every end is at most it, and some end equals it when there are ranges |
| Day2P1.DoubledValue | src/bin/day2p1.rs:67-73 | writing `val` twice is `val * (10^d + 1)`, where `d` is its digit count |
| Day2P1.DoubledIncreasing | src/bin/day2p1.rs:76-84 | the iterator yields strictly increasing IDs |
| Day2P1.DoubledAtLeast | src/bin/day2p1.rs:67-73 | a doubled ID is never below the number it doubles |
| Day2P1.InvalidSumStops | src/bin/day2p1.rs:93-94 | once a doubled ID is past every range, no later ID adds to the sum, so stopping there loses nothing |
| Day2P1.InvalidSumSkip | src/bin/day2p1.rs:95-98 | an ID in no range adds nothing |
| Day2P1.InvalidSumComplete | src/bin/day2p1.rs:89-101 | no number past the largest end doubles into a range |
| Day2P1.BelowMaxEnd | src/bin/day2p1.rs:93 | a number whose double is not past every range is below the largest end, so the fold stops |
| Day2P1.Answer | src/bin/day2p1.rs:89-101 | the sum is that of every in-range doubled ID |
| Day2P2.MaxDigits | src/bin/day2p2.rs:61-64 | the digit count of the largest range end; `None` exactly when there are no ranges |
| Day2P2.ReplicatedTwice | src/bin/day2p2.rs:73-80 | two copies give the first reading's doubled ID |
| Day2P2.ReplicatedStep | src/bin/day2p2.rs:76-78 | each further copy shifts the earlier ones past its own digits |
| Day2P2.SameWidthIncreasing | src/bin/day2p2.rs:73-80 | among numbers of one width, larger numbers give larger replicated IDs |
| Day2P2.WiderRepeat | src/bin/day2p2.rs:73-80 | copies of a wider number have more digits |
| Day2P2.ReplicatedIncreasing | src/bin/day2p2.rs:83-91 | for a fixed number of copies the iterator yields strictly increasing IDs |
| Day2P2.ReplicatedAtLeast | src/bin/day2p2.rs:73-80 | a replicated ID is never below the number it repeats |
| Day2P2.CopiesAtMostDigits | src/bin/day2p2.rs:73-80 | a replicated ID has at least as many digits as copies |
| Day2P2.Collect | src/bin/day2p2.rs:99-113 | the set collected holds exactly the in-range IDs with that many copies |
| Day2P2.CollectStops | src/bin/day2p2.rs:104-105 | at the first ID past every range, the IDs collected are all of them |
| Day2P2.CopiesBounded | src/bin/day2p2.rs:96-99 | an in-range replicated ID has no more copies than the largest end has digits, so `2..=max_digits` misses none |
| Day2P2.TotalIsInvalid | src/bin/day2p2.rs:98-118 | after the last number of copies, the union holds exactly the invalid IDs |
| Day2P2.SumOf | src/bin/day2p2.rs:120 | the sum of the set's elements |
| Day2P2.Answer | src/bin/day2p2.rs:93-122 | the sum of every ID repeated two or more times that lies in a range; `None` exactly when there are no ranges |
| Day3P1.FirstMax | src/bin/day3p1.rs:50-55 | the pick lies in the window, no entry there is larger, and every earlier entry is smaller |
| Day3P1.FindLargest | src/bin/day3p1.rs:47-67 | two digits of the bank in order; `None` exactly when the bank has fewer than two |
| Day3P1.FindLargestIsBest | src/bin/day3p1.rs:47-67 | no two batteries in order spell a larger number than the pick |
| Day3P1.TotalJoltage | src/bin/day3p1.rs:73-82 | `None` exactly when some bank has fewer than two batteries |
| Day3P1.Answer | src/bin/day3p1.rs:70-87 | the sum of every bank's pick |
| Day3P2.Greedy | src/bin/day3p2.rs:53-64 | the window picks from `cur` with `k` picks left: exactly `k` digits |
| Day3P2.GreedyIndices | src/bin/day3p2.rs:53-64 | exactly `k` picked positions |
| Day3P2.GreedySubseq | src/bin/day3p2.rs:53-64 | the picks are a subsequence of the bank from `cur` on, with the positions strictly increasing |
| Day3P2.GreedyIsBest | src/bin/day3p2.rs:53-64 | no subsequence of `k` batteries from `cur` on comes before the picks in dictionary order |
| Day3P2.GreedyIsLargest | src/bin/day3p2.rs:53-64 | no subsequence of `k` batteries spells a larger number than the picks |
| Day3P2.PairIsGreedy | src/bin/day3p1.rs:47-67 | the first reading's two picks are the window picks for two batteries |
| Day3P2.PickStep | src/bin/day3p2.rs:54-63 | one pass of the loop moves the next pick into the result |
| Day3P2.FindLargest | src/bin/day3p2.rs:48-67 | the window picks; `None` exactly when more picks than batteries are asked for |
| Day3P2.BankTotal | src/bin/day3p2.rs:73-84 | `None` exactly when some bank is shorter than the number of picks |
| Day3P2.BankTotalStep | src/bin/day3p2.rs:73-84 | one more bank adds the number its picks spell |
| Day3P2.SumPicks | src/bin/day3p2.rs:73-84 | the sum over the banks of the numbers their picks spell |
| Day3P2.Answer | src/bin/day3p2.rs:70-89 | the same sum with twelve picks per bank |
| Day4P1.IsRoll | src/bin/day4p1.rs:69-79 | a position is a roll exactly when it is neither floor nor off the grid |
| Day4P1.OffsetsAreNeighbours | src/bin/day4p1.rs:83-88 | the steps are the eight distinct moves to an adjacent cell |
| Day4P1.FreeCount | src/bin/day4p1.rs:82-94 | at most one free neighbour per step |
| Day4P1.FreeCountRolls | src/bin/day4p1.rs:82-94 | the steps not counted as free are exactly those that reach a roll |
| Day4P1.CanAccess | src/bin/day4p1.rs:81-96 | accessible exactly when at most three of the eight neighbours are rolls |
| Day4P1.MaxCoord | src/bin/day4p1.rs:64-65 | the largest column (or row) is taken by some position and no position exceeds it |
| Day4P1.Dims | src/bin/day4p1.rs:63-67 | one past the largest column and row; every position lies below both bounds and some position reaches each; `None` exactly on an empty grid |
| Day4P1.RowHitsStep | src/bin/day4p1.rs:107-117 | scanning one more column adds one exactly at a reachable roll |
| Day4P1.HitsStep | src/bin/day4p1.rs:106-118 | scanning one more row adds that row's reachable rolls, none seen before |
| Day4P1.CountRow | src/bin/day4p1.rs:107-117 | the count for one row is the number of its reachable rolls |
| Day4P1.CountHits | src/bin/day4p1.rs:104-118 | the count is the number of reachable rolls in the scanned box |
| Day4P1.BoxCoversGrid | src/bin/day4p1.rs:104-118 | with no negative coordinates the scanned box holds every position |
| Day4P1.Answer | src/bin/day4p1.rs:99-123 | the number of accessible rolls; `None` exactly on an empty grid |
| Day4P2.HitsAreRolls | src/bin/day4p2.rs:107-110 | the positions cleared are rolls |
| Day4P2.ClearedRolls | src/bin/day4p2.rs:113 | clearing rolls keeps every position and removes exactly those rolls |
| Day4P2.ClearRow | src/bin/day4p2.rs:104-117 | scanning a row clears its reachable rolls, judged on the grid as the round began, and counts them |
| Day4P2.RemoveRolls | src/bin/day4p2.rs:99-120 | one round clears exactly the reachable rolls of the grid as it began, counts them, and keeps every position; `None` exactly on an empty grid |
| Day4P2.SettleIsStable | src/bin/day4p2.rs:129-142 | the settled grid keeps every position and only loses rolls, and no roll in it is reachable |
| Day4P2.RoundStep | src/bin/day4p2.rs:132-141 | a round that removes nothing leaves a settled grid; any other round leaves a grid that settles the same way |
| Day4P2.SameKeysSameDims | src/bin/day4p2.rs:103 | the scanned box depends only on the positions, which rounds never change |
| Day4P2.Answer | src/bin/day4p2.rs:122-147 | the total removed is the number of rolls removed until no reachable roll is left; `None` exactly on an empty grid |
| Day5P1.InRangeOrderFree | src/bin/day5p1.rs:53-55 | reordering or repeating the ranges does not change membership |
| Day5P1.EmptyRangeInert | src/bin/day5p1.rs:53-55 | a range whose start lies past its end holds nothing |
| Day5P1.FreshAtStep | src/bin/day5p1.rs:63-68 | one more ingredient adds one exactly when it is fresh |
| Day5P1.Answer | src/bin/day5p1.rs:62-68 | the number of listed ingredients, counted with repeats, that some range holds |
| Day5P2.CoveredIsInRange | src/bin/day5p1.rs:53-55 | the IDs the ranges cover are exactly those `in_range` accepts |
| Day5P2.CountUpdate | src/bin/day5p2.rs:140-145 | replacing one range changes the count by the change in its width |
| Day5P2.CountDisjoint | src/bin/day5p2.rs:140-145 | over ranges that share no ID, the count is the number of IDs covered |
| Day5P2.StartTrim | src/bin/day5p2.rs:53-61 | one past the end of the first range that holds `x` after its start; `None` exactly when no range does |
| Day5P2.StartTrimFrom | src/bin/day5p2.rs:54-60 | the search from position `k` on finds the first range that holds `x` after its start, and gives one past its end |
| Day5P2.EndTrim | src/bin/day5p2.rs:63-71 | one before the start of the first range that holds `x` before its end; no trim exactly when no range does; a panic exactly when that start is 0 |
| Day5P2.EndTrimFrom | src/bin/day5p2.rs:64-70 | the search from position `k` on finds the first range that holds `x` before its end; a start of 0 there is the underflow panic |
| Day5P2.FullOverlap | src/bin/day5p2.rs:73-84 | true exactly when the range occurs at least twice in the list |
| Day5P2.OverlapFrom | src/bin/day5p2.rs:74-83 | the scan from position `k` on finds a second match exactly when the earlier matches and the remaining copies make two |
| Day5P2.Adjust | src/bin/day5p2.rs:98-131 | for one range: a trim keeps it inside its old bounds and narrows it; no trim means no other range meets its ends and it occurs once; a panic needs a range starting at 0 |
| Day5P2.TrimmedIsElsewhere | src/bin/day5p2.rs:98-131 | every ID a trim takes from a range is held by another range |
| Day5P2.TrimKeepsInRange | src/bin/day5p2.rs:98-131 | a trim does not change what `in_range` accepts |
| Day5P2.TrimKeepsCovered | src/bin/day5p2.rs:98-131 | a trim keeps the set of IDs covered |
| Day5P2.ScanFrom | src/bin/day5p2.rs:97-132 | the first range from `k` on that changes; when none changes, none of them has a trim |
| Day5P2.Pass | src/bin/day5p2.rs:95-132 | one pass keeps the number of ranges; a panic needs a range starting at 0 |
| Day5P2.PassShrinks | src/bin/day5p2.rs:94-136 | a pass that changes a range keeps the IDs covered, lowers the total width and never lowers a start, so the trimming loop ends |
| Day5P2.PairApart | src/bin/day5p2.rs:98-131 | two ranges that no trim applies to share no ID |
| Day5P2.SettledIsDisjoint | src/bin/day5p2.rs:133-135 | when a pass changes nothing, no two ranges share an ID |
| Day5P2.Answer | src/bin/day5p2.rs:86-147 | the count is the number of distinct IDs the original ranges cover; a panic needs a range starting at 0 |
| Day6P1.FoldIsSumOrProduct | src/bin/day6p1.rs:87-97 | an addition column folds to the sum of its entries, a multiplication column to their product |
| Day6P1.FoldSingle | src/bin/day6p1.rs:87-97 | a column of one entry folds to that entry |
| Day6P1.LengthsAgree | src/bin/day6p1.rs:72-79 | the length check passes exactly when every row has the first row's length |
| Day6P1.ColumnValue | src/bin/day6p1.rs:86-97 | a column's value is the sum or product of its entries, as its operator says |
| Day6P1.Answer | src/bin/day6p1.rs:66-105 | the sum of every column's value; `None` exactly when a shape check fails |
| Day6P2.FindBreaks | src/bin/day6p2.rs:60-72 | exactly the blank columns, in increasing order |
| Day6P2.Segments | src/bin/day6p2.rs:109-117 | one segment more than breaks; each break closes one segment and the next segment starts just after it; the last segment ends at the width |
| Day6P2.SegmentsInside | src/bin/day6p2.rs:109-117 | every segment lies within the sheet |
| Day6P2.SegmentsOrdered | src/bin/day6p2.rs:109-117 | a later segment starts past the end of an earlier one |
| Day6P2.NonBreakCovered | src/bin/day6p2.rs:109-117 | every column that is not a break lies in a segment |
| Day6P2.SegmentsDisjoint | src/bin/day6p2.rs:109-117 | no column lies in two segments |
| Day6P2.BreakUncovered | src/bin/day6p2.rs:109-117 | no break lies in a segment |
| Day6P2.ColumnDigits | src/bin/day6p2.rs:125-130 | the column's digits, top to bottom; empty exactly when the column is blank |
| Day6P2.ColumnNumber | src/bin/day6p2.rs:131 | the parsed column number; `None`, the `unwrap` panic, exactly on a blank column |
| Day6P2.SegmentNotBlank | src/bin/day6p2.rs:122-134 | no column inside a segment is blank, so every column number parses |
| Day6P2.ReadSegment | src/bin/day6p2.rs:123-134 | the numbers of the segment's columns, left to right |
| Day6P2.Answer | src/bin/day6p2.rs:74-147 | the sum of each segment's fold under its operator; `None` exactly when a shape check fails |
| Day7P1.New | src/bin/day7p1.rs:91-101 | a new active beam at `pos` exactly when no beam has visited it; earlier beams unchanged; afterwards `pos` is visited |
| Day7P1.NewClaimed | src/bin/day7p1.rs:91-105 | afterwards the visited cells are the earlier ones plus `pos` |
| Day7P1.Decide | src/bin/day7p1.rs:116-133 | out of bounds off the board, a move onto an empty cell, a split at a splitter; a start cell below is the panic |
| Day7P1.DecisionsSpec | src/bin/day7p1.rs:110-134 | the actions fail exactly when an active beam has a start cell below it; otherwise one action per active beam, in index order |
| Day7P1.DecisionsAgree | src/bin/day7p1.rs:110-134 | each action is the one its beam decides, and there are none exactly when no beam is active |
| Day7P1.DecisionsStep | src/bin/day7p1.rs:110-134 | one more beam adds its own action exactly when it is active |
| Day7P1.CountSplitsIdx | src/bin/day7p1.rs:125-128 | a step counts one split per active beam above a splitter |
| Day7P1.SplitShape | src/bin/day7p1.rs:139-143 | a split stops the beam, keeps the others, and adds only new beams that stand on their one visited cell |
| Day7P1.SplitGrows | src/bin/day7p1.rs:139-143 | a split removes no beam and no visited cell |
| Day7P1.Act | src/bin/day7p1.rs:137-153 | one action removes no beam and no visited cell, and touches no other beam |
| Day7P1.ApplyAll | src/bin/day7p1.rs:136-154 | the actions applied in order remove no beam and no visited cell |
| Day7P1.Advance | src/bin/day7p1.rs:107-157 | one step panics exactly when an active beam has a start cell below it; otherwise it counts the active beams above a splitter and removes no beam or visited cell |
| Day7P1.ActLowers | src/bin/day7p1.rs:137-153 | each action of an active beam visits a new cell or deactivates a beam |
| Day7P1.AdvanceLowers | src/bin/day7p1.rs:174-182 | a step taken while some beam is active brings the loop nearer its end |
| Day7P1.SplitActsIdx | src/bin/day7p1.rs:125-128 | the beams a step splits are the active ones above a splitter |
| Day7P1.ActSpent | src/bin/day7p1.rs:137-153 | only a split leaves a beam stopped above a splitter |
| Day7P1.ApplySpent | src/bin/day7p1.rs:136-154 | applying a step's actions stops exactly the beams it splits above their splitters |
| Day7P1.AdvanceSpent | src/bin/day7p1.rs:107-157 | a step's count is the number of beams it newly leaves stopped above a splitter |
| Day7P1.RunStep | src/bin/day7p1.rs:174-182 | a run ends at a panic, ends after a step that leaves no beam active with that step's count, and otherwise adds the step's count to the rest of the run |
| Day7P1.PlusPlus | src/bin/day7p1.rs:173-177 | adding two counts to a run's outcome in turn adds their sum; a panic stays a panic |
| Day7P1.RunContinue | src/bin/day7p1.rs:174-182 | a step that leaves a beam active carries the outcome still to come over to the beams it leaves, its count added |
| Day7P1.RunPanic | src/bin/day7p1.rs:174-182 | a step that panics makes the outcome a panic with the beams as they stood |
| Day7P1.RunHalt | src/bin/day7p1.rs:174-182 | a step that leaves no beam active makes the outcome the count so far plus that step's count |
| Day7P1.RunStops | src/bin/day7p1.rs:174-182 | a run that ends without a panic leaves no beam active |
| Day7P1.RunTotal | src/bin/day7p1.rs:107-182 | a run's count is the number of beams it newly leaves stopped above a splitter |
| Day7P1.RunPanics | src/bin/day7p1.rs:116-133 | a run panics exactly when it ends with an active beam above a start cell |
| Day7P1.Answer | src/bin/day7p1.rs:164-187 | the count and final beams are those of the run that steps from one beam below the start until no beam is active; that run ends with no beam active and the count is the number of beams stopped above a splitter, and it panics exactly when some active beam met a start cell |
| Day7P2.Timelines | src/bin/day7p2.rs:71-110 | the number of timelines is at least one |
| Day7P2.TimelinesBound | src/bin/day7p2.rs:75 | each row at most doubles the timelines: at most `2^h` for `h` rows below |
| Day7P2.SideBound | src/bin/day7p2.rs:99-109 | from beside a splitter a particle's timelines are at most half the bound for the splitter's row |
| Day7P2.Descend | src/bin/day7p2.rs:77-94 | falling through empty cells stops at the first cell that is not empty, or off the board, and keeps the timeline count |
| Day7P2.Fire | src/bin/day7p2.rs:71-110 | the memoised recursion gives the timeline count, and every memo entry it leaves is correct |
| Day7P2.Answer | src/bin/day7p2.rs:112-128 | the number of timelines from the cell below the start, between 1 and `2^h` |
| Day8P1.Dist | src/bin/day8p1.rs:83-85 | the squared distance is never negative |
| Day8P1.DistSymmetric | src/bin/day8p1.rs:83-85 | the distance is symmetric and is zero only between boxes at the same place |
| Pairing.Combos | src/bin/day8p1.rs:74-88 | every pair of positions `a < b`, with its value, and nothing else |
| Pairing.Row | src/bin/day8p1.rs:74-78 | position `i` paired with every later position from `j` on, and nothing else |
| Pairing.CombosExist | src/bin/day9p1.rs:52-58 | there is a pair exactly when there are two elements |
| Sorting.SortBy | src/bin/day8p1.rs:89 | a rearrangement of its input in non-decreasing key order |
| Sorting.SortByElements | src/bin/day8p1.rs:89 | sorting keeps the length and the elements |
| Sorting.InsertStable | src/bin/day8p1.rs:89 | inserting an element puts it after every element with its key |
| Sorting.SortByStable | src/bin/day8p2.rs:97 | the sort is stable: the elements with any one key keep their input order |
| Sorting.SortedPrefixSmallest | src/bin/day8p1.rs:89-90 | the first `k` sorted elements hold the smallest keys |
| Sorting.SortDescBy | src/bin/day9p2.rs:134-135 | a rearrangement of its input, largest key first |
| Sorting.ReverseMultiset | src/bin/day9p2.rs:135 | reversing keeps the same elements with the same multiplicities |
| Sorting.DescendingAt | src/bin/day9p2.rs:134-135 | a later element never has a larger key |
| Sorting.WithKeyReverse | src/bin/day9p2.rs:135 | reversing reverses the order of the elements with any one key |
| Sorting.SortDescStable | src/bin/day9p2.rs:134-135 | elements with equal keys come out in the reverse of their input order |
| Day8P1.ClosestArePairs | src/bin/day8p1.rs:74-91 | the pairs taken are pairs of boxes with their distance |
| Day8P1.ClosestAreNearest | src/bin/day8p1.rs:74-91 | no pair left out is nearer than a pair taken, and 1000 are taken unless there are fewer pairs |
| Day8P1.ClosestBelow | src/bin/day8p1.rs:74-91 | the box numbers taken are box numbers |
| Clusters.FindFrom | src/bin/day8p1.rs:44-54 | the first cluster from `i` on that holds `n`; `None` exactly when none does |
| Clusters.Find | src/bin/day8p1.rs:44-54 | the first cluster holding `n`; `None`, the `unwrap` panic, exactly when none does |
| Clusters.SwapRemove | src/bin/day8p1.rs:60-61 | one element fewer; every other element keeps its place except the last, which takes the removed element's place |
| Clusters.Join | src/bin/day8p1.rs:56-65 | the same index changes nothing; otherwise one cluster fewer, ending with the union of the two merged clusters |
| Clusters.KeptOnto | src/bin/day8p1.rs:56-65 | every cluster other than the two merged is kept |
| Clusters.SingletonsPartition | src/bin/day8p1.rs:93-99 | the starting clusters partition the boxes, and two boxes share one only if they are the same box |
| Clusters.FindTotal | src/bin/day8p1.rs:104-105 | every box of a partition is found |
| Clusters.JoinPartition | src/bin/day8p1.rs:56-65 | merging two clusters of a partition leaves a partition |
| Clusters.JoinTogether | src/bin/day8p1.rs:56-65 | after merging, two boxes share a cluster exactly when they did before or both lie in the merged clusters |
| Clusters.TogetherWith | src/bin/day8p1.rs:44-54 | in a partition, the boxes sharing a cluster with `a` are exactly those of the cluster holding `a` |
| Clusters.Connect | src/bin/day8p1.rs:104-106 | fails exactly when one of the two boxes is in no cluster |
| Clusters.ConnectTogether | src/bin/day8p1.rs:104-106 | on a partition it succeeds, and two boxes share a cluster afterwards exactly when they did before or one was with `a` and the other with `b` |
| Clusters.ConnectTracks | src/bin/day8p1.rs:103-106 | connecting one more pair keeps the clusters equal to the connected groups of the pairs so far |
| Clusters.ConnectAllTracks | src/bin/day8p1.rs:93-109 | with every box number valid no `unwrap` fails, and the clusters are the connected groups of the pairs |
| Clusters.LinkedPrefix | src/bin/day8p1.rs:103-109 | more pairs never disconnect two boxes |
| Clusters.AllLinkedPrefix | src/bin/day8p2.rs:98-108 | once all boxes are connected, more pairs keep them so |
| Clusters.OneCluster | src/bin/day8p2.rs:103 | a single cluster is left exactly when the pairs connect every two boxes |
| Day8P1.SizesPartition | src/bin/day8p1.rs:111-113 | on a partition of the boxes there is one size per circuit, each at least 1, and the sizes add up to the number of boxes |
| Day8P1.LargestSpec | src/bin/day8p1.rs:114-116 | the sizes taken are the first three, largest first, and none left out is larger than one taken |
| Day8P1.Step | src/bin/day8p1.rs:103-106 | wiring pair `k` keeps the circuits equal to the connected groups of the first `k + 1` pairs |
| Day8P1.Answer | src/bin/day8p1.rs:69-122 | the circuits are the connected groups of the 1000 closest pairs, and the answer is the product of the three largest circuit sizes |
| Day8P2.PairsExist | src/bin/day8p2.rs:82-97 | there is a pair exactly when there are two boxes |
| Day8P2.AllPairsConnect | src/bin/day8p2.rs:82-97 | all pairs together connect every two boxes |
| Day8P2.ClosestPairsBelow | src/bin/day8p2.rs:82-97 | the pairs' box numbers are box numbers |
| Day8P2.FirstJoin | src/bin/day8p2.rs:98-108 | the index of the first pair after which one circuit is left: the pairs up to it connect every box, and those before it do not |
| Day8P2.LastJoin | src/bin/day8p2.rs:98-110 | on the pairs by distance the last join exists exactly when there are two boxes, and it is the first pair that connects every box |
| Day8P2.Answer | src/bin/day8p2.rs:110-115 | the product of the X coordinates of the first pair by distance that connects every box; `None` exactly when there are fewer than two boxes |
| Day9P1.Area | src/bin/day9p1.rs:43-45 | the tile count of the rectangle, borders included: at least 1, and exactly 1 only for a single tile |
| Day9P1.AreaSymmetric | src/bin/day9p1.rs:43-45 | the area does not depend on which corner comes first |
| Day9P1.Max | src/bin/day9p1.rs:57 | the value of some pair and no smaller than any; `None` exactly on no pairs |
| Day9P1.AnswerSpec | src/bin/day9p1.rs:52-58 | the largest area over all pairs of red tiles; `None` exactly when there are fewer than two tiles |
| Day9P2.InAreaSpec | src/bin/day9p2.rs:47-49 | the corners may come in either order, and no tile on the border is strictly inside |
| Day9P2.Chain | src/bin/day9p2.rs:65-76 | each tile is joined to the one before it |
| Day9P2.MakeLines | src/bin/day9p2.rs:63-83 | the closed outline: a line from each tile to the next, and from the last back to the first; `None` exactly when there are fewer than two tiles |
| Day9P2.ClosedChain | src/bin/day9p2.rs:63-83 | line `i` joins tile `i` to tile `i + 1`, and the last line joins the last tile to the first |
| Day9P2.SegmentSpec | src/bin/day9p2.rs:95-109 | a straight line covers exactly the tiles between its ends, and every line covers its first end |
| Day9P2.BuildTiles | src/bin/day9p2.rs:85-116 | every red tile is on the perimeter |
| Day9P2.BuildTilesSpec | src/bin/day9p2.rs:85-116 | the red tiles are the lines' first ends, and the perimeter is the tiles the lines cover |
| Day9P2.RedAreRows | src/bin/day9p2.rs:63-116 | on the outline, the red tiles are exactly the input tiles |
| Day9P2.RedCheckRedundant | src/bin/day9p2.rs:142-156 | a rectangle is blocked exactly when a perimeter tile is strictly inside it, so the red check changes nothing |
| Day9P2.FirstFit | src/bin/day9p2.rs:138-162 | the area of the first candidate that fits, or 0 when none fits |
| Day9P2.FirstFitting | src/bin/day9p2.rs:138-162 | on ranked candidates, the first that fits is a pair of tiles whose area no fitting pair exceeds |
| Day9P2.NoneFits | src/bin/day9p2.rs:138-162 | when no ranked candidate fits, no pair of tiles fits |
| Day9P2.PairIndex | src/bin/day9p2.rs:129-136 | every pair of tiles is a candidate, with its area |
| Day9P2.CandPair | src/bin/day9p2.rs:129-136 | every candidate is a pair of tiles with its area |
| Day9P2.FirstFitBest | src/bin/day9p2.rs:138-162 | on ranked candidates, the largest area of a fitting pair, or 0 when no pair fits |
| Day9P2.OutlineBest | src/bin/day9p2.rs:118-162 | on the outline of the tiles, the largest area of a fitting pair, or 0 when no pair fits |
| Day9P2.AnswerSpec | src/bin/day9p2.rs:118-166 | the largest area of a rectangle between two red tiles with no outline tile strictly inside, or 0 when there is none; `None` exactly when there are fewer than two tiles |
| Day11P1.Explore | src/bin/day11p1.rs:65-73 | every device taken from the queue counts at least once toward the measure that makes the search end |
| Day11P1.QueueAppend | src/bin/day11p1.rs:60-73 | two queues one after the other lead to what each leads to |
| Day11P1.ExploreExpands | src/bin/day11p1.rs:69-71 | an expanded device leads to what its outputs, queued in order, lead to |
| Day11P1.TakeEnd | src/bin/day11p1.rs:66-67 | taking the end device counts one path, and one device fewer remains to be taken |
| Day11P1.TakeMissing | src/bin/day11p1.rs:69 | a device with no entry makes the search panic |
| Day11P1.TakeExpanded | src/bin/day11p1.rs:69-71 | replacing the front device by its outputs at the back keeps the paths still to be found, with one device fewer to take |
| Day11P1.UnreachedCycle | src/bin/day11p1.rs:59-75 | a cycle the search never reaches needs no rank: the search from `you` to `out` beside an unreachable cycle is covered and finds one path |
| Day11P1.CountAllPaths | src/bin/day11p1.rs:59-75 | the number of paths from `start` to `end`; `None` exactly when one of them reaches a device with no entry; one path when start is end |
| Day11P2.Step | src/bin/day11p2.rs:74-76 | stepping onto an output moves there and never clears a flag |
| Day11P2.CountVsPaths | src/bin/day11p2.rs:56-83 | counting with flags panics exactly when counting all paths does; it counts no more, and exactly as many once both flags are set |
| Day11P2.MemoAdd | src/bin/day11p2.rs:78 | remembering a state's own count keeps the memo correct |
| Day11P2.CountPaths | src/bin/day11p2.rs:56-83 | the memoised count equals the count without a memo; every memo entry stays correct |
| Day11P2.CountOutputs | src/bin/day11p2.rs:72-82 | summing the outputs' counts gives the state's count; every memo entry stays correct |
| Day11P2.Answer | src/bin/day11p2.rs:85-94 | the count of paths from `svr` to `out` through `dac` and `fft`; it panics exactly when counting all paths does, and is at most their number |
| Day12P1.CountTrueCells | src/bin/day12p1.rs:134 | counting the `true` cells finds exactly as many as there are positions holding `true` |
| Day12P1.ShapeArea | src/bin/day12p1.rs:134 | a shape's area is its number of `#` cells, at most nine |
| Day12P1.Areas | src/bin/day12p1.rs:131-135 | one area per shape, by position, each the number of `#` cells in that shape and at most nine |
| Day12P1.RequiredArea | src/bin/day12p1.rs:139-147 | the sum of area times quantity; `None`, the index panic of line 144, exactly when there are more quantities than shapes |
| Day12P1.NeededBound | src/bin/day12p1.rs:139-147 | the presents cover at most nine cells each |
| Day12P1.FitsLarger | src/bin/day12p1.rs:148-151 | a region that fits still fits when made wider or longer |
| Day12P1.FitAtStep | src/bin/day12p1.rs:138-152 | one more region adds one exactly when it fits |
| Day12P1.Answer | src/bin/day12p1.rs:127-157 | the number of regions whose presents need no more cells than the region has; `None` exactly when some region lists more quantities than there are shapes |

## Left out

- Parsing: the pest grammars, reading standard input, and printing the answer. The model starts from parsed data and returns the answer.
- `debug_println!`, the `DijkstraConfig` progress printing and its `Instant` timer (src/dijkstra.rs:102-114): output only.
- src/bin/day10p2.rs is not part of this model.
- The Dijkstra engine's generic cost and index types: nodes are `int` and costs are `nat`. The `get_adjacent` callback is a function parameter.
- Dijkstra.Run: optimal costs are stated only for unit edge costs. Costs come from the popped heap entry, as in the code, and for general costs the model proves only the table shape, closure and acyclicity.
- Dijkstra.Run: the finite ghost node set closed under edges is only for the termination proof. The source ends only when finitely many nodes are reachable.
- HashMap and HashSet iteration order. Where the order can matter, the model fixes one: `start_pos` (day 7) is a parameter, and day 9 part two checks its tile sets as sets.
- Day7P1.Answer, Day7P2.Answer: the start position is a parameter, so the model assumes the board has a Start cell. Without one, `start_pos` panics on its `unwrap` (src/bin/day7p1.rs:70, src/bin/day7p2.rs:67), and the model cannot show that panic.
- Integer widths are unbounded in the model:
  - `i32` dial positions and shifts (days 1 and 10);
  - `usize` IDs and `end + 1` (days 2 and 5);
  - `i32` and `u64` sums (days 3, 6, 11 and 12);
  - `i64` distances and products (days 8 and 9);
  - `u64` timeline counts (day 7);
  - the `u64` path counts and their memo in `count_all_paths_aux` and `count_all_paths` (src/dijkstra.rs:197-225, PathWalks.CountAllPaths).
  Day7P2.TimelinesBound bounds the day 7 count. The `usize` to `i32` casts of day 12 are not modelled.
- Day10P1.Answer: needs every light and button index below 32, since a wider shift overflows `i32`. Masks are read as unsigned, so bit 31 is not a sign bit.
- Day5P2.Answer: says a panic needs a range starting at 0, but not exactly when it happens. Whether the `start - 1` underflow is reached depends on the order of the trims.
- Day4P1.Answer: the count is all accessible rolls only when no coordinate is negative. Parsing gives only non-negative coordinates. Otherwise it is the count within the scanned box (Day4P1.CountHits).
- Day6P2: the per-cell `HashMap` of lines 90-101 is the character grid itself. A character other than a digit or a blank is the parser's `unreachable!` and is not modelled.
- Day7P1.Answer: also returns the final beams, so that its count can be stated.
- Day8P1.Answer: also returns the final circuits, so that its count can be stated.
- Day7P2.Fire: two adjacent splitters make the source recurse forever. The model returns `None` for these.
- Day11P1.CountAllPaths and Day11P2.Answer: require a ranking of the devices the search meets, lower along every output of a ranked device other than the end. Devices the search never meets need no rank. Inputs where the search meets a cycle are not modelled. There the source loops until it takes a device with no entry and panics, or runs out of memory (the queue of day 11 part one) or stack (the recursion of part two).
- Day8P2.FirstJoin: also returns `None` for no boxes. The program never calls it that way, because with no boxes there are no pairs.
- Day12P1: `Shape.index` plays no part in the answer. The `i32` quantities are taken as non-negative, as the grammar gives them.

## Findings

| source | as written | input that shows it | evidently intended | confidence | as-written member | corrected member |
|---|---|---|---|---|---|---|
| src/bin/day1p2.rs:93-97 | after a left turn, a dial resting at 0 counts one landing on 0, even when the turn did not move the dial | the dial at 0 and the turn `L0`: the count is 1, though no click happens | count a landing only when a click lands on 0, as the right branch does | not executed; low, since the puzzle input may hold no turn by 0 | Day1P2.IdleTurnCountsTwice (Day1P2.Answer) | Day1P2.CorrectedAnswer (Day1P2.TurnedCounts) |
