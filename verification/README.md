# goAthena kernels: verified model

A Dafny model of four parts of goAthena's `pkg/ro`, a game server for the kRO protocol, with
proofs of what they do.

- **Pathfinding** (`pkg/ro/pathfinding`). An A* search over a walkability grid with scratch
  arrays that are reused between searches, an open set that keeps stale duplicates, and closed
  cells that are never opened again; and the Bresenham line-of-sight check. `WalkGrid` defines
  legal walks and their cost, `Search` the search as a state machine on values in which any
  entry of least f may be popped, `SearchProofs` what every run of it satisfies, and
  `Pathfinding` the class over the arrays, whose int32 arithmetic is proved not to overflow
  when 14 · width · height < 2^30. `Line` is the closed form of the line. `Trails` describes maps
  that leave the search no choice; `Detour` is one on which the found path is not the cheapest,
  `Corridor` a family that shows the cost bound to be the best one.
- **Area of interest** (`pkg/ro/aoi`). Entities on a map cut into 18 x 18 towers, indexed by two
  maps and held in three maps per tower. `Towers` has the operations on values and compares the
  structure with one plain table of positions, `Aoi` the manager class over entity objects,
  `Interleaving` concurrent adds and moves broken into critical sections and unlocked accesses,
  `Agreement` when these leave indexes and towers in agreement, and `LoneCalls` that an undisturbed
  call does in its steps what the operation on values does.
- **Packet database** (`pkg/ro/packetdb`, `pkg/ro/packet`). Nested `#if` blocks of a packet
  header are flattened into one predicate text per entry, which a string evaluator decides later
  for each PACKETVER. `Text` has the splitters, `Predicate` the evaluator and the validator,
  `PredicateProofs` what evaluation means for negated, parenthesised and pairwise joined texts,
  `Joins` exactly what an unparenthesised join of any number of predicates means, `Parser`
  the pass over classified lines, `Conditional` the reference semantics (conditional inclusion,
  section 6.10.1 of ISO/IEC 9899:2011, on the nested structure), `Nesting` the proof that exactly
  the nested sources are accepted, `Flattening` the comparison of the two, `Unbalanced` why it
  needs balanced parentheses, `Registry` the flattened table, and `Versions` version numbers.
  `Atoms` compares the recognisers with the patterns they stand for, `Meaning` says what predicates
  written out as text mean and which are accepted, and `Entries` what whole sources record.
- **Melee damage** (`pkg/ro/combat`). `Damage` has the two defense reductions and the post-defense
  modifiers with division that truncates toward zero.

`Arithmetic` and `Options` hold what several of these share. Where the code works in place the
model has classes, arrays and loops whose methods are proved against functions of the values;
the properties are then proved of those functions.

## Where the code differs from its documentation

- `FindPath` is documented to return the shortest path (pathfinder.go:47). It returns a path of
  at most 10/7 of the least cost (`FoundRoute`), and no smaller ratio would do (`BoundIsTight`). It
  returns a cheapest path on maps on which no free cell has a legal diagonal step, that is, on which
  no four free cells form a square (`ShortestWithoutDiagonals`, `NoDiagonalMeansNoOpenBlock`).
  `FoundPathNotShortest` is a map on which every search, however ties are broken, answers with cost
  64 where 58 is possible.
- `MoveEntity` is documented to move an entity atomically between towers (grid.go:231-234). For a
  move to a tower with a lower number the entity is looked up in the destination, not found there,
  and left where it was while the index advances (`FallingMoveExact`, `FallingMoveLosesEntity`,
  `FallenStillVisible`). Runs keep the grid consistent exactly when no move falls
  (`RunConsistentIff`).
- Concurrent moves of one entity are meant to be safe (grid.go:231-234, 281-286). Two of them, both
  to higher towers, can return and leave the index naming one tower and the object in another
  (`RacingMovesPart`). Indexes and towers agree after every interleaving in which no two calls in
  flight concern the same entity and no move falls (`AgreesWhenQuiet`).
- `EvalPredicate` and `evalConjunct` are documented to fail on `&&` (eval.go:21-23, 77-79); they
  evaluate conjunctions. The model follows the code.
- The flattener is documented never to exclude an entry that should be included (doc.go:38-41).
  That holds for accepted sources whose heads have balanced parentheses (`NeverExcludes`,
  `NoCommandLost`). The validator also takes unbalanced heads, and there it can fail
  (`UnbalancedExcludes`).
- The recorded predicate is meant to be the conjunction of the branch predicates (parser.go:320-326).
  A join without parentheses has another meaning when a part has a disjunction of its own.
  `ActiveMeans` says what every recorded predicate means. It is the conjunction when at most one
  part is recorded or no current head has a disjunction outside parentheses (`ActiveHolds`,
  `FlattensExactly`); judged by the numbers of disjuncts no other join is (`FitWidthsExact`).
  `DisjunctionKeepsTooMuch` is an instance. A disjunction in an outermost `#if` head does no harm to
  a section that nests no further ones (`GateFits`).
- `minVersionFor` is documented to give the least version at which a predicate is true
  (parser.go:343-348). For disjunctions of conjunctions of comparisons it does so exactly when some
  disjunct has every number equal to it (`MinVersionMeets`); the true threshold is the least over
  the disjuncts of the greatest number in each (`TrueThreshold`). Nested gates record the least of their
  numbers and are included from the greatest on (`NestedGates`, `NestedGatesMeet`). For the `#else`
  group of one comparison the entry is included exactly below the recorded number (`ElseVersions`).
- `!` in front of a term that itself starts with `!` holds at every version (`NegationExact`).
- A comment says that `defined(...)` is true for PACKETVER_ZERO and false otherwise (eval.go:155-156).
  It is true for every name (`DefinedHolds`), as doc.go:36-38 wants it for that one.
- The validator is meant to report what the evaluator cannot decide (eval.go:243-253). It accepts
  empty pieces and a lone `!`; a disjunction with an empty side holds at every version and a lone
  `!` at none (`OrHolds`, `LoneMark`).
- The zero roll is documented to be a connecting, non-critical hit (damage.go:91-94, 125-128). Given
  as an option it is a miss (`ZeroRollMisses`); only leaving the option out connects.

## Model

| member | source | states |
|---|---|---|
| WalkGrid.ReverseRoute | pkg/ro/pathfinding/pathfinder.go:115-150 | a legal route walked backwards is legal, corner rule included |
| WalkGrid.ReachableSymmetric | pkg/ro/pathfinding/pathfinder.go:58-96 | between free cells reachability does not depend on direction; with FindPath's contract, success is symmetric |
| WalkGrid.SevenTenths | pkg/ro/pathfinding/pathfinder.go:219-233 | seven tenths of the inadmissible heuristic never drop by more than a legal step from a free cell costs, on every grid |
| WalkGrid.NoDiagonalMeansNoOpenBlock | pkg/ro/pathfinding/pathfinder.go:130-139 | no free cell has a legal diagonal step exactly when no four free cells form a square |
| WalkGrid.ScaledAlongWalk | pkg/ro/pathfinding/pathfinder.go:219-233 | nor by more than a whole legal walk from a free cell costs |
| Search.BeginInv | pkg/ro/pathfinding/pathfinder.go:70-78 | the seeded state satisfies the search invariant |
| Search.PopIsCurrent | pkg/ro/pathfinding/pathfinder.go:80-86 | a popped entry of an open cell carries that cell's recorded cost |
| Search.RelaxInv | pkg/ro/pathfinding/pathfinder.go:121-148 | one relaxation keeps the tree of legal steps, the queue, and the offers made by other closed cells |
| Search.ExpandInv | pkg/ro/pathfinding/pathfinder.go:115-150 | closing a cell and relaxing its eight neighbours restores the whole invariant |
| SearchProofs.RouteKeepsOpen | pkg/ro/pathfinding/pathfinder.go:80-95 | while a legal route to the open target exists the open set is not empty |
| SearchProofs.ExhaustedMeansUnreachable | pkg/ro/pathfinding/pathfinder.go:95-95 | an empty open set with the target open proves that no legal route exists |
| SearchProofs.PopBound | pkg/ro/pathfinding/pathfinder.go:80-93 | a cell is closed at a cost within the ratio of every legal route to it, without reopening |
| SearchProofs.RunInvariant | pkg/ro/pathfinding/pathfinder.go:80-93 | every state of every run satisfies the invariant and the cost bound and has the target open |
| SearchProofs.ClosedIsFinal | pkg/ro/pathfinding/pathfinder.go:123-125 | a closed cell keeps its cost and parent for the rest of the run |
| SearchProofs.ChainIsRoute | pkg/ro/pathfinding/pathfinder.go:248-254 | the parent chain is a legal route without repetition whose cost is the recorded one |
| SearchProofs.FoundRoute | pkg/ro/pathfinding/pathfinder.go:88-90 | popping the target gives a legal route with 7 · cost <= 10 · cost of any other |
| SearchProofs.ShortestWithoutDiagonals | pkg/ro/pathfinding/pathfinder.go:47-47 | on maps where no free cell has a legal diagonal step (corridors one cell wide, with any bends, branches and cycles) the found cost is the least |
| SearchProofs.ExhaustedRun | pkg/ro/pathfinding/pathfinder.go:95-95 | a run that empties the open set proves the target unreachable |
| SearchProofs.ClosedRoom | pkg/ro/pathfinding/pathfinder.go:80-86 | no more cells are closed than the grid has, which bounds the search and its costs |
| Pathfinding.Pathfinder.Reset | pkg/ro/pathfinding/pathfinder.go:239-246 | all buffers cleared and the queue emptied, whatever they held |
| Pathfinding.Pathfinder.Expand | pkg/ro/pathfinding/pathfinder.go:115-150 | the array loop does the eight relaxations of the state machine, in table order, within int32 |
| Pathfinding.Pathfinder.LegalStep | pkg/ro/pathfinding/pathfinder.go:126-139 | a neighbour passes exactly when the step is legal, and then at its cost |
| Pathfinding.Pathfinder.ReconstructPath | pkg/ro/pathfinding/pathfinder.go:248-266 | the parent chain without the start, cut to 32; the loop ends because costs fall along parents |
| Pathfinding.Pathfinder.TurnAround | pkg/ro/pathfinding/pathfinder.go:255-257 | the two-index swap loop reverses |
| Pathfinding.Pathfinder.FindPath | pkg/ro/pathfinding/pathfinder.go:58-112 | each error exactly on its inputs, ErrNoPath exactly when no legal route exists, otherwise an answer, which AnswerIsChain and AnswerIsWalkable describe cell by cell; nothing is assumed of the buffers |
| Pathfinding.Pathfinder.LineOfSight | pkg/ro/pathfinding/pathfinder.go:152-200 | true exactly when every cell strictly between the ends that is nearest to the straight line, the one further out on ties, is walkable; the error-term loop follows that line |
| Pathfinding.AnswerIsChain | pkg/ro/pathfinding/pathfinder.go:248-266 | the points are the cells of the parent chain after the start, in order: all of them when there are at most 32, else exactly the first 32 |
| Pathfinding.AnswerIsWalkable | pkg/ro/pathfinding/pathfinder.go:248-266 | at most 32 distinct free cells, a legal walk from the start, a prefix of the full chain, ending at the target exactly when not truncated |
| Pathfinding.TargetClosed | pkg/ro/pathfinding/pathfinder.go:86-90 | once the target is closed its parent chain is an answer within 10/7 of every route |
| Pathfinding.StaleTurn | pkg/ro/pathfinding/pathfinder.go:83-85 | skipping a stale duplicate is a turn of the run and keeps the invariant |
| Pathfinding.FreshTurn | pkg/ro/pathfinding/pathfinder.go:86-92 | closing and expanding a fresh entry is a turn of the run and keeps the invariant |
| Pathfinding.Int32Room | pkg/ro/pathfinding/pathfinder.go:217-233 | with 14 · width · height < 2^30 the next cost stays below infCost and the next f within int32 |
| Trails.ForcedPop | pkg/ro/pathfinding/pathfinder.go:80-86 | where every step off a trail exceeds the estimates on it, the only open cell that can be popped is the next one of the trail |
| Trails.FoundCost | pkg/ro/pathfinding/pathfinder.go:80-93 | so every finished search of such a map answers with the trail's cost, however ties are broken |
| Corridor.AlwaysAround | pkg/ro/pathfinding/pathfinder.go:219-233 | on the map of side n every finished search costs 20 n where 14 n + 32 is possible |
| Corridor.BoundIsTight | pkg/ro/pathfinding/pathfinder.go:47-47 | for every ratio below 10/7 there is a map on which every finished search exceeds it |
| Corridor.SearchSucceeds | pkg/ro/pathfinding/pathfinder.go:80-95 | on these maps no search ends without a path |
| Detour.FoundPathNotShortest | pkg/ro/pathfinding/pathfinder.go:47-47 | every finished search of the witness map has cost 64 although 58 is possible |
| Detour.DetourAnswer | pkg/ro/pathfinding/pathfinder.go:47-47 | so an answer in the sense of FindPath's contract is dearer there than a legal route |
| Line.RoundedUnique | pkg/ro/pathfinding/pathfinder.go:177-198 | the short-axis coordinate is the one integer within half a cell of the ideal line, the upper on ties |
| Line.ClearMeans | pkg/ro/pathfinding/pathfinder.go:177-198 | the cells looked at are, by their coordinates, exactly those strictly between the ends and within half a cell of the straight line, the one further out on ties |
| Line.LineEnds | pkg/ro/pathfinding/pathfinder.go:187-189 | the line starts at one end and is at the other after max(dx, dy) steps |
| Line.LineDeviation | pkg/ro/pathfinding/pathfinder.go:179-199 | each cell satisfies 2 · abs(j·dx - i·dy) <= max(dx, dy) and is k steps out after k turns |
| Line.OnLinePoint | pkg/ro/pathfinding/pathfinder.go:187-189 | the loop is at the target exactly after all max(dx, dy) steps, never earlier or later |
| Line.OnLineStep | pkg/ro/pathfinding/pathfinder.go:190-198 | the error-term tests advance the two counters along the rounded line |
| Line.LineReverses | pkg/ro/pathfinding/pathfinder.go:157-200 | lines in opposite directions agree at a step exactly when it is not a tie |
| Line.SightSymmetricIff | pkg/ro/pathfinding/pathfinder.go:157-200 | for two points sight is the same in both directions on every grid exactly when no inner step is a tie |
| Line.SightNotSymmetric | pkg/ro/pathfinding/pathfinder.go:157-200 | with one blocked cell sight depends on the direction |
| Towers.AcrossCovers | pkg/ro/aoi/grid.go:121-142 | there are as many columns and rows of 18 cells as cover the map, and no more |
| Towers.TowersAreTiles | pkg/ro/aoi/grid.go:158-165 | two cells share a tower exactly when they share an 18 x 18 tile, and towers are numbered row by row |
| Towers.Outcomes | pkg/ro/aoi/grid.go:182-305 | which of its conditions an add, move or remove reports, in the order of the checks, and that it then changes nothing |
| Towers.AddConsistent | pkg/ro/aoi/grid.go:182-206 | an add keeps indexes and towers in agreement, in every outcome |
| Towers.RemoveConsistent | pkg/ro/aoi/grid.go:210-229 | a remove keeps them in agreement |
| Towers.RisingMoveReinserts | pkg/ro/aoi/grid.go:238-305 | a move to the same or a higher tower equals removing and adding the entity again |
| Towers.FallingMoveExact | pkg/ro/aoi/grid.go:264-287 | a move to a lower tower changes the index entry and nothing else |
| Towers.MoveConsistentIff | pkg/ro/aoi/grid.go:238-305 | a move keeps the grid consistent exactly when it does not fall |
| Towers.RunConsistentIff | pkg/ro/aoi/grid.go:182-305 | a run of adds, removes and moves is consistent throughout exactly when no move falls |
| Towers.TableAfterRun | pkg/ro/aoi/grid.go:182-305 | after every run without falling moves the table of positions is what the operations make one by one on a plain table |
| Towers.FreshConsistent | pkg/ro/aoi/grid.go:121-142 | a new grid is consistent |
| Towers.TableAdd | pkg/ro/aoi/grid.go:182-206 | an add adds one row to the table of positions, and EntityLocation reports it |
| Towers.TableRemove | pkg/ro/aoi/grid.go:210-229 | a remove deletes one row |
| Towers.TableMove | pkg/ro/aoi/grid.go:238-305 | a move that does not fall changes one row, and EntityLocation reports it |
| Towers.FallingMoveLosesEntity | pkg/ro/aoi/grid.go:269-287 | after a falling move EntityLocation reports unknown, and a remove leaves the entity in its old tower |
| Towers.FallenStillVisible | pkg/ro/aoi/grid.go:210-287 | such an entity, no longer tracked, is still found: every query from anywhere on the map whose radius reaches its old position visits its tower and has the position in its square |
| Towers.BoxIsBall | pkg/ro/aoi/grid.go:362-404 | on the map the clipped square is the Chebyshev ball, and its cells lie in visited towers |
| Towers.TowerCount | pkg/ro/aoi/grid.go:443-452 | a tower's size is the number of entities indexed there |
| Towers.CountOverIds | pkg/ro/aoi/grid.go:329-341 | the sizes of distinct towers add up to the entities indexed in them |
| Towers.EntityCountIsSum | pkg/ro/aoi/grid.go:434-439 | EntityCount is the sum of all tower sizes |
| Towers.NearInNineGrid | pkg/ro/aoi/grid.go:310-356 | entities within 18 cells are in the nine towers around |
| Towers.NearBounded | pkg/ro/aoi/grid.go:329-356 | a query of radius up to 18 returns no more entities than Count9Grid |
| Towers.NineIsTiles | pkg/ro/aoi/grid.go:310-341 | the sizes of the nine towers add up to the tracked entities in the tile of (x, y) and the eight around it |
| Towers.SqueezeTiers | pkg/ro/aoi/squeeze.go:34-43 | the radius is 15 up to 100 entities around, 8 up to 500 and 5 above |
| Towers.SqueezedIsSmaller | pkg/ro/aoi/squeeze.go:34-43 | the squeezed view is part of the standard one and shrinks as the count grows |
| Aoi.GridManager.constructor | pkg/ro/aoi/grid.go:121-142 | a valid, empty grid of the given size |
| Aoi.GridManager.TowerID | pkg/ro/aoi/grid.go:158-165 | the tower of a cell on the map, -1 outside |
| Aoi.GridManager.UntrackedNotHeld | pkg/ro/aoi/grid.go:182-206 | in a consistent grid an untracked entity object is in no tower |
| Aoi.GridManager.AddEntity | pkg/ro/aoi/grid.go:182-206 | the class carries out Add on its value state, each error on its inputs |
| Aoi.GridManager.RemoveEntity | pkg/ro/aoi/grid.go:210-229 | the class carries out Remove |
| Aoi.GridManager.MoveEntity | pkg/ro/aoi/grid.go:238-305 | the class carries out Move as written, falling moves included, writing coordinates in place |
| Aoi.GridManager.EntityLocation | pkg/ro/aoi/grid.go:456-476 | where the two indexes lead, unknown when the tower map disagrees |
| Aoi.GridManager.EntityCount | pkg/ro/aoi/grid.go:434-439 | the size of the index, which in a consistent grid is the sum of tower sizes |
| Aoi.GridManager.TowerEntityCount | pkg/ro/aoi/grid.go:443-452 | the size of a tower, 0 out of range |
| Aoi.GridManager.Get9GridTowers | pkg/ro/aoi/grid.go:310-325 | the towers at most one row and column away, each once, none off the map |
| Aoi.GridManager.Count9Grid | pkg/ro/aoi/grid.go:329-341 | the sum of their sizes; in a consistent grid the number of tracked entities in the nine 18 x 18 tiles around the position |
| Aoi.GridManager.CollectTowerEntities | pkg/ro/aoi/grid.go:409-427 | appends exactly the tower's entities in the box, each once |
| Aoi.GridManager.QueryWithin | pkg/ro/aoi/grid.go:362-382 | in a consistent grid exactly the tracked entities whose positions differ by at most the radius on either axis, each once; in any grid what the visited towers hold in the square |
| Aoi.GridManager.QueryVisible | pkg/ro/aoi/grid.go:346-348 | the same for radius 15; no more than the nine towers hold |
| Aoi.GridManager.QueryVisibleSqueezed | pkg/ro/aoi/grid.go:353-356 | in a consistent grid exactly the tracked entities within 15 cells when the nine tiles hold at most 100, within 8 when they hold 101 to 500, within 5 above |
| Interleaving.NextWellTyped | pkg/ro/aoi/grid.go:182-305 | every step leaves references leading to objects of the right identifier |
| Interleaving.StepTouchesOne | pkg/ro/aoi/grid.go:182-305 | a step of one call works on the index, or on one entry of one tower, or on one object, never on two of these, and leaves the other calls alone |
| Interleaving.NextHeldOnce | pkg/ro/aoi/grid.go:192-304 | every critical section and unlocked access keeps each tracked entity in exactly one tower or one call |
| Interleaving.AlwaysHeldOnce | pkg/ro/aoi/grid.go:192-304 | so does every interleaving of adds and moves in any direction, from a new grid |
| Interleaving.NoneInserted | pkg/ro/aoi/grid.go:294-299 | the branch for an entity already inserted by a concurrent mover cannot be taken |
| Interleaving.UnlockedWriteIsAlone | pkg/ro/aoi/grid.go:288-289 | during the unlocked coordinate write no tower leads to the entity and no other call touches it next, unless the object is passed to AddEntity again |
| Interleaving.UnlockedWriteCommutes | pkg/ro/aoi/grid.go:288-289 | that write commutes with the next step of any other call |
| Interleaving.QuietIsComplete | pkg/ro/aoi/grid.go:182-305 | with no call in flight the towers hold every tracked entity once and nothing else, in whatever tower |
| Agreement.NextOrderly | pkg/ro/aoi/grid.go:192-304 | each step keeps calls in flight in order and all other entities in the tower their index names, if calls for one entity do not overlap and no move falls |
| Agreement.AgreesWhenQuiet | pkg/ro/aoi/grid.go:192-304 | after every such interleaving, whenever all calls have returned, indexes and towers agree both ways and every entity is in the tower of its cell |
| Agreement.RacingMovesPart | pkg/ro/aoi/grid.go:264-304 | two concurrent rising moves of one entity return with its index at tower 2 and its object in tower 1 |
| LoneCalls.LoneAdd | pkg/ro/aoi/grid.go:182-206 | the three steps of an undisturbed AddEntity do what Add does on values |
| LoneCalls.LoneMove | pkg/ro/aoi/grid.go:238-305 | the up to four steps of an undisturbed MoveEntity do what Move does on values |
| Text.SplitTopLevel | pkg/ro/packetdb/eval.go:53-75 | the scanning loop of both splitters cuts at exactly the doubled operators outside parentheses |
| Text.StripOuter | pkg/ro/packetdb/eval.go:185-206 | the counting loop finds out whether one balanced pair encloses the text and gives its contents |
| Text.FindTopLevelOp | pkg/ro/packetdb/eval.go:210-231 | the scan finds an operator exactly when one of the splitters would cut |
| Text.SplitLossless | pkg/ro/packetdb/eval.go:53-75 | joining the pieces with the operator gives the text back |
| Text.PiecesAreWhole | pkg/ro/packetdb/eval.go:93-115 | no piece can be cut again |
| Text.PieceDepth | pkg/ro/packetdb/eval.go:53-75 | pieces but the last close what they open |
| Text.SplitConcat | pkg/ro/packetdb/eval.go:53-115 | splitting commutes with concatenation where no operator straddles the seam |
| Text.ParenthesisedIsWhole | pkg/ro/packetdb/eval.go:53-115 | a balanced text in parentheses is one piece |
| PredicateProofs.TrimmedConjunct | pkg/ro/packetdb/eval.go:80-91 | blanks around a conjunction do not change its value |
| PredicateProofs.PredicateDisjuncts | pkg/ro/packetdb/eval.go:33-48 | a predicate holds exactly when it is not blank and some disjunct holds |
| PredicateProofs.AndConjunct | pkg/ro/packetdb/eval.go:80-91 | joining with && conjoins two conjunctions |
| PredicateProofs.JoinedPair | pkg/ro/packetdb/eval.go:33-91 | exactly what an unparenthesised join of two predicates with disjunctions means |
| PredicateProofs.JoinNeverExcludes | pkg/ro/packetdb/parser.go:327-341 | a join of any number of parts holds whenever all parts hold |
| PredicateProofs.JoinExact | pkg/ro/packetdb/parser.go:327-341 | and only then when no part has a disjunction outside parentheses |
| PredicateProofs.PairExact | pkg/ro/packetdb/eval.go:33-91 | `a && b` holds exactly when both do, when neither has a disjunction outside parentheses |
| PredicateProofs.NegatedHolds | pkg/ro/packetdb/eval.go:122-149 | !(h) negates h for every balanced h that is not blank, and is one part |
| PredicateProofs.ElseHolds | pkg/ro/packetdb/parser.go:234-242 | the sentinel of an #else group holds at every version |
| PredicateProofs.NegationExact | pkg/ro/packetdb/eval.go:131-143 | ! negates a term that does not start with !, and in front of one that does holds at every version |
| Atoms.GteExact | pkg/ro/packetdb/eval.go:233-236 | the comparison recogniser accepts exactly the texts name, blanks, `>=`, blanks, number, blanks, and yields the number |
| Atoms.DefinedExact | pkg/ro/packetdb/eval.go:238-239 | the definedness recogniser accepts exactly `defined`, `(`, name, `)` with blanks anywhere between and around |
| Meaning.PaddedPredicate | pkg/ro/packetdb/eval.go:33-48 | blanks around a predicate change neither its value nor whether it is accepted |
| Meaning.OrHolds | pkg/ro/packetdb/eval.go:33-75 | a disjunction holds exactly when one side does or is blank, and is accepted exactly when both sides are accepted or blank |
| Meaning.AndHolds | pkg/ro/packetdb/eval.go:80-115 | a conjunction of sides without disjunctions outside parentheses holds exactly when each side holds or is blank, and is accepted exactly when each is accepted or blank |
| Meaning.AtomMeans | pkg/ro/packetdb/eval.go:154-180 | a text that can only be an atom holds exactly when it is a definedness check, a comparison whose number fits and is reached, or no comparison but begins with `true`; nothing else is accepted |
| Meaning.MarkedAtom | pkg/ro/packetdb/eval.go:122-149 | an exclamation mark in front of an atom, with or without blanks between, turns its value round and does not change whether it is accepted |
| Meaning.DefinedHolds | pkg/ro/packetdb/doc.go:34-41 | `defined(name)`, for every name and any blanks, is accepted and holds at every version; `!defined(name)` and `!(defined(name))` never hold |
| Meaning.DefinedDisjunct | pkg/ro/packetdb/doc.go:34-41 | so a disjunction with such a disjunct holds at every version |
| Meaning.NumeralValue | pkg/ro/packetdb/eval.go:164-168 | every integer in decimal, with any zeros in front, is read back when it fits 64 bits and refused otherwise |
| Meaning.ComparisonHolds | pkg/ro/packetdb/eval.go:163-170 | a comparison with such a numeral is accepted and holds exactly from the number on, never when it does not fit |
| Meaning.WordHolds | pkg/ro/packetdb/eval.go:171-180 | a lone word is accepted, and holds, exactly when it begins with `true` |
| Meaning.ClosesCounts | pkg/ro/packetdb/eval.go:185-206 | a text is balanced exactly when no prefix closes more than it opens and the whole closes all |
| Meaning.DepthCounts | pkg/ro/packetdb/eval.go:53-75 | the splitters end a text at depth 0 exactly when no suffix opens more than it closes |
| Meaning.ParenthesesHold | pkg/ro/packetdb/eval.go:122-149 | one balanced pair around a predicate changes neither its value nor whether it is accepted; with `!` in front the value is turned round |
| Meaning.NotEnclosed | pkg/ro/packetdb/eval.go:185-206 | a term that starts with `(` and is not one balanced pair around something never holds and is refused |
| Meaning.LoneMark | pkg/ro/packetdb/eval.go:131-134 | a lone `!` is accepted and never holds |
| Joins.JoinRow | pkg/ro/packetdb/eval.go:33-91 | the disjuncts of a join: where two parts meet, the last of one and the first of the next become one |
| Joins.JoinMeans | pkg/ro/packetdb/parser.go:336-340 | a join of any number of parts holds exactly when a disjunct strictly inside a part does or a chain from one part's last disjunct, or the start, through one-disjunct parts to a later part's first, or the end |
| Joins.FitWidthsExact | pkg/ro/packetdb/parser.go:336-340 | judged by the numbers of disjuncts, a join conjoins its parts exactly with at most one part or one disjunct in each |
| Parser.BuildActivePredicate | pkg/ro/packetdb/parser.go:327-341 | the double loop collects negated earlier heads and the current head of every frame, in order |
| Parser.MinVersion | pkg/ro/packetdb/parser.go:349-372 | the loop over the matches yields the least number that fits, 0 when there is none |
| Parser.LeastIsMinimum | pkg/ro/packetdb/parser.go:354-371 | that number is one of those found and no other is smaller |
| Parser.MinimumOfText | pkg/ro/packetdb/parser.go:349-372 | the recorded number is the least of those the scan finds that fit 64 bits, 0 when none does |
| Parser.ParsedEntries | pkg/ro/packetdb/parser.go:86-158 | an accepted source gives one entry per defining line, in order, with its command, name and length; an entry without condition has minimum 0, any other the least number of its condition |
| Parser.NameIsHex | pkg/ro/packetdb/parser.go:300-307 | a name is `0x` and four lower-case hexadecimal digits whose value is the command |
| Parser.DirectiveErrors | pkg/ro/packetdb/parser.go:164-250 | which error a bad head or a stray #elif, #else or #endif gives, each exactly on its lines |
| Parser.UnclosedBlocks | pkg/ro/packetdb/parser.go:154-157 | an accepted source opens as many blocks as it closes; the error for unclosed blocks carries how many more are opened than closed |
| Parser.CountsAdd | pkg/ro/packetdb/parser.go:128-153 | the counts add up over parts of a source, and each line counts once as what it is |
| Parser.DirectiveEffect | pkg/ro/packetdb/parser.go:164-250 | a directive fails exactly on a bad head or without the block it needs and then changes nothing; else the number of open blocks changes by its kind, outer blocks are untouched, and a switched block remembers every head tried |
| Parser.DirectiveKeepsHeads | pkg/ro/packetdb/parser.go:164-250 | only empty heads, the sentinel and trimmed heads the validator accepts are ever stored |
| Parser.Parse | pkg/ro/packetdb/parser.go:86-158 | the loop yields the entries, or the first error, of the line-by-line semantics, and exact counts; every entry has the fields of its line and the minimum of its condition |
| Conditional.ParseItems | pkg/ro/packetdb/parser.go:86-158 | nested items under any open frames parse to the entries read off their structure, leaving the stack as it was |
| Conditional.ParseSource | pkg/ro/packetdb/parser.go:86-158 | a nested source with accepted heads is parsed |
| Conditional.RecordedMinimum | pkg/ro/packetdb/parser.go:143-147 | every entry read off a nested source, under any open frames, has minimum 0 without condition and else the least number of its condition |
| Nesting.AcceptedIsNested | pkg/ro/packetdb/parser.go:86-250 | conversely, accepted lines are the lines of a nested source with accepted heads |
| Nesting.HeadsByLine | pkg/ro/packetdb/parser.go:164-233 | a property of all heads of the structure is one of all #if and #elif lines |
| Flattening.ActiveHolds | pkg/ro/packetdb/parser.go:320-341 | the recorded predicate holds when all frames are true, and only then with at most one part or plain current heads |
| Flattening.ActiveMeans | pkg/ro/packetdb/parser.go:320-341 | exactly when any recorded predicate holds, in terms of the disjuncts of its parts |
| Flattening.NeverExcludes | pkg/ro/packetdb/doc.go:34-41 | whatever conditional inclusion keeps, for any defined names, has a recorded predicate that holds |
| Flattening.FlattensExactly | pkg/ro/packetdb/parser.go:219-341 | when every entry's stack is fit (at most one part, or plain current heads) the recorded predicates keep exactly what conditional inclusion keeps |
| Flattening.PlainFits | pkg/ro/packetdb/parser.go:320-341 | sources without disjunctions outside parentheses in their heads fit |
| Flattening.GateFits | pkg/ro/packetdb/parser.go:320-341 | an outermost section that nests no further ones fits with any disjunction in its #if head and plain #elif heads |
| Flattening.AtMostOneGroup | pkg/ro/packetdb/parser.go:213-242 | no two groups of a section are true at one version |
| Flattening.SomeGroup | pkg/ro/packetdb/parser.go:234-242 | a section that ends in #else has a true group at every version |
| Flattening.ExactlyOneActive | pkg/ro/packetdb/parser.go:219-341 | of an #if ... #else chain under any outer gates exactly one recorded predicate holds at versions at which the outer gates are true, and none at others, when the stacks are fit |
| Flattening.ElifExact | pkg/ro/packetdb/parser.go:320-341 | the case of one earlier head at the outermost level: the first disjunct of the #elif head needs that head to fail, later ones do not |
| Flattening.DisjunctionKeepsTooMuch | pkg/ro/packetdb/parser.go:336-340 | a source whose #elif entry is included at every version although conditional inclusion always skips it |
| Unbalanced.HeadAccepted | pkg/ro/packetdb/eval.go:254-297 | the validator accepts an unbalanced head |
| Unbalanced.UnbalancedExcludes | pkg/ro/packetdb/parser.go:327-341 | and under it an entry that conditional inclusion keeps at every version is never included |
| Registry.DB.Register | pkg/ro/packet/packet.go:78-80 | overwrites one command and leaves all others |
| Registry.DB.Lookup | pkg/ro/packet/packet.go:84-87 | the definition registered for a command, which carries that command |
| Registry.DB.Length | pkg/ro/packet/packet.go:92-98 | its length, or 0 and false for unknown commands |
| Registry.DB.Merge | pkg/ro/packet/packet.go:122-130 | definitions of the other database win, nil changes nothing |
| Registry.PacketRegistry.ForPacketVer | pkg/ro/packetdb/registry.go:62-76 | a fresh database: a command is there exactly when an entry for it has no condition or one that holds, with name and length of the last such entry, from client to server |
| Registry.TableExact | pkg/ro/packetdb/registry.go:43-76 | the same of the table as a value, for every command |
| Registry.LastWins | pkg/ro/packetdb/registry.go:43-53 | a command maps to its last definition, others keep what they had |
| Registry.FlattenedIsPreprocessed | pkg/ro/packetdb/registry.go:43-76 | for sources that fit the table equals preprocessing the source and registering what is left |
| Registry.NoCommandLost | pkg/ro/packetdb/doc.go:34-41 | for every accepted source with balanced heads no command left by preprocessing is missing |
| Versions.MonotonePredicate | pkg/ro/packetdb/eval.go:33-91 | without ! a predicate that holds keeps holding for later versions |
| Versions.ThresholdsConcat | pkg/ro/packetdb/parser.go:355-356 | the scan of a text finds what it finds in two parts, cut where no number goes on |
| Versions.GateThresholds | pkg/ro/packetdb/parser.go:355-356 | scanning a comparison yields its number and goes on behind it |
| Versions.GateTerm | pkg/ro/packetdb/eval.go:154-171 | a comparison holds exactly from its number on, and never when that does not fit |
| Versions.MinVersionBounds | pkg/ro/packetdb/parser.go:343-372 | when every disjunct has a comparison, truth at v implies v >= the recorded minimum |
| Versions.MinVersionExact | pkg/ro/packetdb/parser.go:343-372 | a disjunction of comparisons holds at v exactly when some number fits and v >= the minimum |
| Versions.MinVersionMeets | pkg/ro/packetdb/parser.go:343-372 | for disjunctions of conjunctions of comparisons the recorded minimum is the documented one exactly when some disjunct has every number equal to it |
| Versions.TrueThreshold | pkg/ro/packetdb/eval.go:33-91 | such a predicate holds exactly from the least over its disjuncts of the greatest number in each |
| Entries.NestedGates | pkg/ro/packetdb/parser.go:327-372 | the one entry parsed from any number of nested comparisons has their texts joined as condition, the least fitting number as minimum, and is included exactly once all numbers are reached |
| Entries.NestedGatesMeet | pkg/ro/packetdb/parser.go:343-372 | its minimum is the documented one exactly when all numbers are the same |
| Entries.PlainGate | pkg/ro/packetdb/parser.go:143-147 | a packet under one comparison with the 64-bit number n records minimum n and is included exactly from n on |
| Entries.ElseVersions | pkg/ro/packetdb/parser.go:327-372 | the entry parsed from the #else group of one comparison has the condition `!(...) && true /*else*/` and that comparison's number as minimum, and is included exactly below it |
| Entries.ElifElseText | pkg/ro/packetdb/parser.go:327-341 | the conditions of the groups of #if a, #elif b, #else are `a`, `!(a) && b` and `!(a) && !(b) && true /*else*/` |
| Entries.DefinedGateOpen | pkg/ro/packetdb/doc.go:34-41 | a packet under an accepted disjunction with a definedness check among its disjuncts is in the table of every version |
| Damage.NormalMelee | pkg/ro/combat/damage.go:143-201 | the division by zero exactly at HardDEF -400 in Renewal; else the rates and the roll of the last option of each kind, 100 and a connecting hit without one, and the damage of attack 2 batk + weaponATK in Renewal, batk + weaponATK before it, spelled out for a defender without defense |
| Damage.LastDecides | pkg/ro/combat/damage.go:115-129 | the last option of each kind decides, the default holds without one |
| Damage.BaseCounts | pkg/ro/combat/damage.go:163-189 | one more base attack does what two more weapon attack do in Renewal, and one before it |
| Damage.UndefendedDamage | pkg/ro/combat/damage.go:163-192 | without defense and at neutral rates a connecting hit does its attack, at least 0 in Renewal and at least 1 before it, twice as a critical |
| Damage.ZeroRollMisses | pkg/ro/combat/damage.go:206-206 | with the zero roll as the last one given an attack misses and does nothing |
| Damage.PreRenewalExact | pkg/ro/combat/damage.go:244-247 | before Renewal the reduced damage is attack (100 - HardDEF) / 100 rounded toward zero, less SoftDEF, at least 1 |
| Damage.RenewalExact | pkg/ro/combat/damage.go:249-253 | in Renewal it is attack (4000 + HardDEF) / (4000 + 10 HardDEF) rounded toward zero, less SoftDEF, for either sign of the divisor |
| Damage.RatesExact | pkg/ro/combat/damage.go:213-220 | first the element percentage, then the size percentage, each rounded toward zero, then twice for a critical |
| Damage.AttackMonotoneIff | pkg/ro/combat/damage.go:158-200 | damage never falls as a non-negative attack grows exactly for the defenses of AttackCounts |
| Damage.AttackMonotoneFails | pkg/ro/combat/damage.go:244-253 | for every other defense a stronger attack that does less, at neutral rates |
| Damage.SoftDEFAntitone | pkg/ro/combat/damage.go:244-253 | more SoftDEF never does more damage |
| Damage.HardDEFAntitone | pkg/ro/combat/damage.go:244-253 | more HardDEF never does more damage; for Renewal above -400 |
| Damage.RatioAntitone | pkg/ro/combat/damage.go:249-253 | the rounded Renewal ratio falls with HardDEF |
| Damage.PostDEFMonotone | pkg/ro/combat/damage.go:213-220 | non-negative rates keep the order of damages of any sign through both truncations |
| Damage.CriticalDoubles | pkg/ro/combat/damage.go:206-220 | a critical does exactly twice a connecting hit, whatever the hit roll |
| Damage.DamageNotNegative | pkg/ro/combat/damage.go:182-200 | damage is never negative for non-negative rates, and a miss does none |
| Damage.ConnectingHitHurts | pkg/ro/combat/damage.go:183-192 | before Renewal a connecting hit does at least one (a critical two) at rates of 100 or more |
| Damage.DamageBounded | pkg/ro/combat/damage.go:143-220 | with defenses not negative and rates up to 200 damage is at most eight times the attack, so int32 suffices for attacks up to 2^28 - 1 |

## Left out

- The heap behind the open set: a pop returns some entry of least f. Which one container/heap picks, and so the direction order of ties, is not modelled; the theorems hold for every choice.
- Sizes beyond 14 · width · height < 2^30: infCost and int32 leave no room there; the class requires the bound, which the source leaves to its comment about 512 cells per side.
- Loading maps (`romap`): a grid is a width, a height and a walkability function, of which nothing is assumed outside the bounds.
- LineOfSight's machine integers: coordinates are unbounded there.
- Locks as such: the manager class runs one call at a time, and concurrency is in Interleaving, where a step is one critical section or unlocked access. Deadlock and the memory model are not modelled.
- Concurrent RemoveEntity and queries: Interleaving has adds and moves only.
- Interleaving.QuietIsComplete: counts holders and does not say that the index names the tower that holds the entity, which overlapping calls for one entity can break (Agreement.RacingMovesPart); Agreement.AgreesWhenQuiet has the condition under which it does.
- Entity types other than player, NPC and mob: the source's map for them is nil, and adding such an entity panics.
- Aoi.GridManager.AddEntity: requires that an object with an untracked identifier is in no tower, which UntrackedNotHeld gives for consistent grids; after a falling move and a remove the same object could be added twice, and its shared coordinates are not modelled.
- Aoi.GridManager.constructor: requires positive sizes, for which the source panics otherwise.
- Squeeze tier names and their strings.
- Regular expressions: lines arrive classified, and the recognisers of `symbol >= number`, `defined(name)` and the scan for `>= number` are written out by hand over ASCII. Trimming covers ASCII blanks only. Comment stripping, file reading and line buffering are not modelled.
- Flattening.NeverExcludes: requires balanced heads; UnbalancedExcludes shows that this cannot be dropped. The meaning of one head is what EvalPredicate says of it, in which defined(...) always holds (Meaning.DefinedHolds).
- Flattening.FlattensExactly: requires fit stacks, beyond which ActiveMeans says what is included, and #ifdef and #ifndef sections that are open and have no further groups, because the flattener never asks which names are defined.
- Versions.MinVersionMeets: covers predicates without negation and parentheses; ElseVersions shows what negation does, MinVersionBounds is a bound for mixed conjunctions.
- SearchProofs.ShortestWithoutDiagonals: is one direction; a map with an open square can still have cheapest answers for some endpoints.
- Registry.DB.Merge: the zero-value receiver is left out; the constructor always makes the map.
- Registry.DB: command numbers are integers, since the recogniser for lines only lets 16-bit ones through; the accessors Has, Size and Entries are left out.
- The status formulas and the element and size tables of a hit: base attack, hit and critical rates are inputs, the tables are functions.
- Damage.NormalMelee: integers are unbounded; DamageBounded says when the conversion to int32 is exact.
- Other packages of the repository (packet encoders and parsers, YAML databases, scripts, services): repetitive tables, plumbing or code outside these kernels.
