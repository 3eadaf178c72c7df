# Minesweeper solver, modelled in Dafny

This project models the automatic Minesweeper solver of the MineSweeper
repository. It has two parts:

- The **board** (`Board`, board.cpp) is the oracle. It holds the mines and,
  for every tile, the number of mines around it.
- The **sweeper** (`Sweeper`, sweeper.cpp) never looks at the mines. It opens
  tiles through `Board::check` and deduces the rest.

The sweeper keeps a grid of tile records. Each record is opened (`checked`),
`flagged` or `restricted`, and also holds the count the oracle reported, a
restricted-group label, a vote count and a trial mark. Besides the grid it keeps
a stack of opened blanks still to expand, the counters `m_checked`,
`m_flagged` and `m_guessed`, and the list of restricted groups. `solve` guesses
a tile and then runs deduction rounds until they stop making progress. Each
round runs these passes:

- *blanks*: expand every opened tile with no mines around it;
- *singles*: a numbered tile whose flags already make up its number opens
  its other neighbours; one whose flags plus closed neighbours make up its
  number flags those neighbours;
- *restricted*, only when both passes above found nothing:
  - split the frontier (closed tiles next to an opened number) into its
    8-connected components;
  - for each component, enumerate all 2^k assignments of mines and count how
    many accepted assignments mark each tile a mine;
  - open every tile that no accepted assignment marks.

## Structure

| file | module | contents |
|---|---|---|
| geometry.dfy | `Geometry` | coordinates, the 8-neighbourhood in the order `getAdjecent` probes it, cell sets, `Distinct`/`Elements` |
| board.dfy | `Board` | the `Board` class: `array2` mine and count grids, the placement and counting loops of the constructor, `check` |
| tiles.dfy | `Tiles` | the tile record, the grid `seq<seq<Tile>>`, `getAdjecent`/`countAdjecent` as functions, the opened/flagged/unresolved sets |
| engine.dfy | `Engine` | the solver state as a value, `check` and the flagging step as transitions, the state invariant, the soundness of both single-tile rules |
| passes.dfy | `Passes` | `solveSingles` and `solveBlanks` as transitions, the `Deduces` contract every deduction pass meets, the solved-board lemma |
| groups.dfy | `Groups` | the grouping predicates (a partition of the frontier into closed, connected lists) and the flood-fill steps |
| trials.dfy | `Trials` | the trial assignment, the acceptance test of `verifyRestricted`, the counts of accepted and marking assignments |
| restricted.dfy | `Restricted` | `solveRestricted` as a transition and what it opens |
| sweeper.dfy | `Sweeper` | the `Sweeper` class. Its methods update the fields in place and are proved equal to the transitions above. |

**How the model is built**
- `Sweeper`'s methods change its fields in place, with `modifies` frames on the
  exact fields they touch. The `ensures` of `Check`, `Guess` and every pass
  method ties the new state `S()` to a value-level transition of the old
  state: `CheckStep`, `CheckEach`, `FlagEach`, `SingleStep`, `SinglesPass`,
  `BlanksPass`, `GroupPass`, `RestrictedPass`, `Tested` or `Vote`.
  `DeduceRound` names the intermediate states of a round through ghost
  results. `Attempt` is the body of `Solve`'s loop. `Deduce` and `Solve` run loops whose length depends on the guesses
  and the fuel; their `ensures` state the counters, the outcome, when the
  fuel can run out, and that no tile is ever closed or unflagged.
- The transitions model these source lines: `CheckStep` and `Opened`,
  `check` (sweeper.cpp:86-111); `CheckEach`, `checkAdjecent` and the checking
  loop of `solveRestricted` (sweeper.cpp:166-177, 245-249); `BlankStep` and
  `BlanksPass`, `solveBlanks` (sweeper.cpp:113-127); `FlagEach`, the flagging
  loop of `solveSingles` (sweeper.cpp:206-215); `SingleStep` and `SinglesPass`,
  `solveSingles` (sweeper.cpp:186-220); `GroupPass` and `RestrictedPass`,
  `solveRestricted` (sweeper.cpp:222-254); `Tested`, `CountAccepted` and
  `Marked`, `testRestricted` (sweeper.cpp:307-332); `Accepts` and `Vote`,
  `verifyRestricted` (sweeper.cpp:334-372).
- The properties the solver promises are then proved as lemmas about those
  transitions.
- The ghost field `Mines` of `Board` and the ghost function `F()` give the proofs
  the true mine set, which the solver's code never reads.

## Model

| member | source | states |
|---|---|---|
| Geometry.Around | MineSweeper/sweeper.cpp:129-133 | the all-tiles `getAdjecent`: exactly the on-board tiles at Chebyshev distance 1, each once, at most 8 |
| Geometry.Candidates | MineSweeper/sweeper.cpp:140-161 | the eight probe positions are exactly the tiles at Chebyshev distance 1, without repetition |
| Geometry.AroundIsNeighbourhood | MineSweeper/sweeper.cpp:140-161 | the listed neighbours are the set the board counts over (the same `IsNeighbour`), of size at most 8 |
| Tiles.Adjacent | MineSweeper/sweeper.cpp:135-164 | `getAdjecent(x, y, pred)` lists exactly the in-bounds neighbours whose tile satisfies `pred`, each once, never (x, y) itself, at most 8 |
| Tiles.CountAdjacent | MineSweeper/sweeper.cpp:179-184 | `countAdjecent` is at most 8 |
| Tiles.CountAdjacentSize | MineSweeper/sweeper.cpp:179-184 | `countAdjecent` equals the number of neighbours whose tile satisfies the predicate |
| Tiles.PartitionSize | MineSweeper/sweeper.cpp:22 | when no tile is both open and flagged, the open, flagged and unresolved tiles add up to `size()` |
| Board.MineCountBound | MineSweeper/board.cpp:23-53 | no tile has more than 8 mined neighbours |
| Board.CountBeforeStep | MineSweeper/board.cpp:27-50 | visiting a tile in the scan adds one to each neighbour's count exactly when it is a mine |
| Board.CountBeforeAll | MineSweeper/board.cpp:23-53 | once every column is scanned, each count is the number of mines around its tile |
| Board.Board.constructor | MineSweeper/board.cpp:9-54 | the mines are exactly the placed positions, at most `mineCount` distinct tiles; every count is the number of mined in-bounds neighbours |
| Board.Board.PlaceMines | MineSweeper/board.cpp:20-21 | a tile is mined exactly when some draw names it |
| Board.Board.CountMines | MineSweeper/board.cpp:23-53 | the nested counting loop leaves every count equal to the mines around its tile; `mine` is only read |
| Board.Board.CountColumn | MineSweeper/board.cpp:25-52 | after column x every count covers the mines in columns up to x |
| Board.Board.CountTile | MineSweeper/board.cpp:27-51 | one visited tile extends every count by the scan step |
| Board.Board.MarkAround | MineSweeper/board.cpp:30-50 | a mine increments exactly its in-bounds neighbours, by one each, and nothing else |
| Board.Board.Check | MineSweeper/board.cpp:56-63 | -1 exactly for a mine; otherwise the number of mines around the tile, within 0..8 |
| Engine.InitialInv | MineSweeper/sweeper.cpp:10-16 | a fresh solver (nothing open, flagged or restricted, counters 0) satisfies the state invariant |
| Engine.CheckStepInv | MineSweeper/sweeper.cpp:86-113 | `check` keeps the invariant, never closes or unflags a tile, opens exactly the tile when `check` answers true, leaves the flags alone, counts a hit exactly when it answers false, only pushes onto the stack |
| Engine.OpenStepInv | MineSweeper/sweeper.cpp:97-110 | `check` of a closed safe tile opens exactly that tile and hits nothing |
| Engine.OpenedAt | MineSweeper/sweeper.cpp:97-110 | opening c sets `checked`, clears `restricted` and stores the count; when the count is nonzero exactly the closed neighbours become restricted; nothing else changes |
| Engine.CheckStepFrame | MineSweeper/sweeper.cpp:97-110 | `check` changes no other tile except to set `restricted`, and no vote count |
| Engine.GuessStep | MineSweeper/sweeper.cpp:32-35 | a guess on a closed tile counts one query and answers false exactly when the tile is a mine, adding exactly that hit |
| Engine.CheckEachInv | MineSweeper/sweeper.cpp:166-177 | a loop of `check` calls keeps the invariant and the flags, never closes a tile, and never unmakes a hit |
| Engine.CheckEachOpens | MineSweeper/sweeper.cpp:170-174 | after the loop a tile is open exactly when it was already open, or it was picked and is not a mine |
| Engine.CheckEachCount | MineSweeper/sweeper.cpp:166-177 | `checkAdjecent` returns the number of neighbours it found neither open nor flagged |
| Engine.CheckEachResolves | MineSweeper/sweeper.cpp:170-174 | after `checkAdjecent` every neighbour is open, flagged or a mine |
| Engine.CheckEachNoHits | MineSweeper/sweeper.cpp:170-174 | a loop of `check` calls that picks no mine hits none |
| Engine.FlagStepInv | MineSweeper/sweeper.cpp:209-214 | flagging a closed mine keeps the invariant: `restricted` is cleared, the flag count rises by one, nothing else changes |
| Engine.FlagEachInv | MineSweeper/sweeper.cpp:206-215 | the flagging loop keeps the invariant when every closed neighbour is a mine, and opens nothing |
| Engine.FlagEachCount | MineSweeper/sweeper.cpp:206-215 | after the flagging loop every neighbour is open or flagged, and `m_flagged` has risen by the number of closed neighbours |
| Engine.SinglesOpenSafe | MineSweeper/sweeper.cpp:202-203 | when a number's flags make up its count, every mine around it is flagged, so the neighbours it opens are safe |
| Engine.SinglesFlagSound | MineSweeper/sweeper.cpp:204-205 | when flags plus closed neighbours make up the count, every closed neighbour is a mine |
| Engine.BlankHasNoMinedNeighbour | MineSweeper/sweeper.cpp:100-101 | a tile opened with count 0 has no mined neighbour |
| Passes.SingleStepSound | MineSweeper/sweeper.cpp:195-216 | one tile of `solveSingles` deduces soundly: invariant kept, nothing undone, no hit, counters match the tiles opened and flagged |
| Passes.SinglesPassSound | MineSweeper/sweeper.cpp:186-220 | the whole column-by-column pass deduces soundly |
| Passes.DeducesCount | MineSweeper/sweeper.cpp:219 | a sound pass's return value is the number of tiles it opened or flagged, and neither counter shrinks |
| Passes.DeducesTrans | MineSweeper/sweeper.cpp:46-66 | sound deduction composes: a round's blanks pass followed by its singles pass is itself a sound deduction |
| Passes.BlanksPassSound | MineSweeper/sweeper.cpp:115-127 | `solveBlanks` deduces soundly, empties the stack, flags nothing, and leaves every opened blank with all its neighbours open |
| Passes.BlankRound | MineSweeper/sweeper.cpp:119-124 | one pop-and-expand deduces soundly and keeps every popped blank surrounded by open tiles |
| Passes.SolvedBoard | MineSweeper/sweeper.cpp:22-41 | when the counters account for every tile and no query hit a mine, the flags are exactly the mines and the open tiles exactly the safe ones |
| Groups.GroupedPartition | MineSweeper/sweeper.cpp:256-283 | after grouping every frontier tile lies in exactly one list, the one its label names |
| Groups.GroupedClosed | MineSweeper/sweeper.cpp:285-305 | a frontier tile next to a group member belongs to that group |
| Groups.Open | MineSweeper/sweeper.cpp:274-279 | starting a new group at an unlabelled frontier tile keeps the partial grouping |
| Groups.Join | MineSweeper/sweeper.cpp:296-301 | appending a frontier neighbour keeps the group distinct, on the frontier and connected |
| Groups.ResetDone | MineSweeper/sweeper.cpp:260-267 | the reset loop clears every label and vote count |
| Groups.PendingLabel | MineSweeper/sweeper.cpp:300-302 | labelling a tile shrinks the set of frontier tiles not yet in the group, so the flood-fill recursion ends |
| Trials.AssignAt | MineSweeper/sweeper.cpp:313-318 | writing a full path sets each group tile's trial mark to its bit and changes nothing else |
| Trials.AcceptsUpToAll | MineSweeper/sweeper.cpp:348-364 | the acceptance test holds exactly when every opened neighbour of every group tile is satisfied |
| Trials.CountIsSize | MineSweeper/sweeper.cpp:307-332 | the enumeration count from a path is the number of accepted full assignments extending it |
| Trials.BitsSize | MineSweeper/sweeper.cpp:321-328 | a group of k tiles has 2^k full assignments |
| Trials.CountBound | MineSweeper/sweeper.cpp:307-332 | at most 2^k assignments are accepted |
| Trials.MarkedBound | MineSweeper/sweeper.cpp:366-370 | no tile gets more votes than there are accepted assignments |
| Trials.NoVotes | MineSweeper/sweeper.cpp:366-370 | a tile gets no vote exactly when no accepted assignment marks it a mine |
| Trials.TestedAtMember | MineSweeper/sweeper.cpp:307-332 | the enumeration adds to a group tile's votes the accepted completions marking it, and leaves its trial mark at the last bit written |
| Trials.TestedAt | MineSweeper/sweeper.cpp:307-332 | the enumeration touches only group tiles, as `TestedAtMember` states |
| Trials.TestedSplit | MineSweeper/sweeper.cpp:323-328 | trying `true` then `false` at the next position is the enumeration from the shorter path |
| Trials.CountsAgree | MineSweeper/sweeper.cpp:311-319 | the counts depend only on the tiles' open, flag and count fields, not on earlier trial marks or votes |
| Trials.AcceptedBy | MineSweeper/sweeper.cpp:348-364 | the scan of `verifyRestricted` answers exactly the acceptance test |
| Trials.SatisfiedAround | MineSweeper/sweeper.cpp:351-361 | the inner scan answers whether every opened neighbour sees its number in flags plus trial mines |
| Restricted.GroupedSettled | MineSweeper/sweeper.cpp:256-283 | grouping changes only labels and votes |
| Restricted.TestedSettled | MineSweeper/sweeper.cpp:307-332 | the enumeration changes only votes and trial marks, and leaves no trial mark set |
| Restricted.TestedUnvoted | MineSweeper/sweeper.cpp:366-370 | after the enumeration a group tile has zero votes exactly when no accepted assignment marks it a mine |
| Restricted.GroupPassInv | MineSweeper/sweeper.cpp:242-250 | one group's pass keeps the invariant, flags nothing, undoes nothing |
| Restricted.GroupPassOpens | MineSweeper/sweeper.cpp:246-250 | a group tile ends open exactly when it was open, or it is safe and no accepted assignment marks it a mine |
| Restricted.GroupPassSafe | MineSweeper/sweeper.cpp:242-250 | when the assignment matching the board is accepted, the pass hits no mine |
| Restricted.RestrictedPassInv | MineSweeper/sweeper.cpp:234-251 | the loop over all groups keeps the invariant, flags nothing, undoes nothing and never unmakes a hit |
| Sweeper.OpenTile | MineSweeper/sweeper.cpp:97-110 | the grid update of `check` for a safe tile is `Opened` |
| Sweeper.Probe | MineSweeper/sweeper.cpp:92-111 | `check` past the early return is `CheckStep` |
| Sweeper.Sweeper.constructor | MineSweeper/sweeper.cpp:10-16 | a fresh solver: untouched tiles, empty stack and groups, zero counters, invariant established |
| Sweeper.Sweeper.Solve | MineSweeper/sweeper.cpp:18-84 | success only when queries plus flags made equal `size()`, and then, on a fresh solver with no mine hit, the flags are exactly the mines and the open tiles exactly the safe ones; failure only on a guessed mine, named in the outcome; `Exhausted` only when every guess names an open or flagged tile, or the queries plus flags made exceed `size()` (where the source loops forever), or the fuel is below `size()`; neither counter shrinks and no tile is ever closed or unflagged; hits never decrease; at most one guess counted per guess supplied |
| Sweeper.Sweeper.NextGuess | MineSweeper/sweeper.cpp:27-31 | skips exactly the guesses that are open or flagged; the next one is neither |
| Sweeper.Sweeper.Attempt | MineSweeper/sweeper.cpp:32-80 | one pass of the outer loop at a usable guess: counts exactly one guess; `Detonated` exactly when the guess is a mine, with one more hit; otherwise every guess up to and including this one names an open or flagged tile, and `unsolved` drops by the queries plus flags made; `Exhausted` only when `unsolved` has gone below 0 or the fuel is below `unsolved` at entry; otherwise `unsolved` is not negative; no tile is closed or unflagged; when it goes on with `unsolved` positive, the deduction ended in a `Stuck` round |
| Sweeper.Sweeper.Guess | MineSweeper/sweeper.cpp:32-35 | the new state is `CheckStep` at the guessed tile; counts the guess and one query; answers false exactly for a mine, and a true answer leaves the tile open; no tile is closed or unflagged |
| Sweeper.Sweeper.Deduce | MineSweeper/sweeper.cpp:43-80 | the inner loop keeps the invariant; `unsolved` drops by exactly the queries plus flags made, and neither counter shrinks; no tile is closed or unflagged; hits never decrease; `exhausted` only when `unsolved` ends below 0 or the fuel is at most `unsolved` at entry, since every round that is neither done nor stuck lowers a positive `unsolved`; otherwise `unsolved` ends at 0, or the last round was `Stuck`: from its starting state `BlanksPass` made no query, `SinglesPass` changed no counter, and the new state is `RestrictedPass` over freshly `Grouped` groups with no new query |
| Sweeper.Sweeper.DeduceRound | MineSweeper/sweeper.cpp:46-79 | the state after `BlanksPass`, then `SinglesPass` unless `unsolved` already reached 0; the restricted pass runs exactly when both found nothing and `unsolved` is positive, and then the new state is `RestrictedPass` over fresh groups; without it the round is a sound deduction; done exactly when `unsolved` reaches 0; stuck exactly when the restricted pass ran and made no query, and then `unsolved` is positive; no tile is closed or unflagged; neither counter shrinks, and a round that starts with `unsolved` positive and is neither done nor stuck lowers it; when stuck, the round satisfies `Stuck` |
| Sweeper.Sweeper.Check | MineSweeper/sweeper.cpp:86-113 | the new state is `CheckStep` of the old one and the answer is `CheckOk` |
| Sweeper.Sweeper.CheckAdjacent | MineSweeper/sweeper.cpp:166-177 | the new state is `check` applied in probing order to the closed neighbours; the result is `m_checked`'s growth |
| Sweeper.Sweeper.SolveBlanks | MineSweeper/sweeper.cpp:115-127 | the new state is `BlanksPass`, a sound deduction; the result is the non-negative growth of `m_checked`; no mine is hit |
| Sweeper.Sweeper.ExpandTop | MineSweeper/sweeper.cpp:121-123 | pops the newest blank and checks its closed neighbours |
| Sweeper.Sweeper.FlagAround | MineSweeper/sweeper.cpp:206-215 | flags each closed neighbour, clearing its `restricted`, and counts it |
| Sweeper.Sweeper.ApplySingle | MineSweeper/sweeper.cpp:195-216 | the new state is `SingleStep` at the tile |
| Sweeper.Sweeper.SolveSingles | MineSweeper/sweeper.cpp:186-220 | the new state is `SinglesPass`, a sound deduction; the result is the non-negative growth of `m_checked` plus `m_flagged`; no mine is hit |
| Sweeper.Sweeper.SolveRestricted | MineSweeper/sweeper.cpp:222-254 | groups the frontier, then runs `RestrictedPass` over the groups; no tile is closed or unflagged; `flagged` is outside its frame; the result is `m_checked`'s growth, never negative; `path` is left empty |
| Sweeper.Sweeper.SolveGroups | MineSweeper/sweeper.cpp:234-251 | the loop over the groups is `RestrictedPass` |
| Sweeper.Sweeper.Regroup | MineSweeper/sweeper.cpp:227 | `groupRestricted` as a step of `solveRestricted`: only labels and votes change, and the groups are distinct and on the board |
| Sweeper.Sweeper.SolveGroup | MineSweeper/sweeper.cpp:242-250 | one group: enumerate, then check the unvoted tiles; the new state is `GroupPass` |
| Sweeper.Sweeper.CheckGroup | MineSweeper/sweeper.cpp:246-250 | checks exactly the group tiles with zero votes, in list order |
| Sweeper.Sweeper.GroupRestricted | MineSweeper/sweeper.cpp:256-283 | the groups partition the frontier into closed, connected lists labelled by index; all votes are 0; nothing but labels and votes changes |
| Sweeper.Sweeper.ResetLabels | MineSweeper/sweeper.cpp:260-267 | every label becomes -1 and every vote count 0 |
| Sweeper.Sweeper.GroupAt | MineSweeper/sweeper.cpp:273-280 | an unlabelled frontier tile starts a new, complete group; labelled tiles stay labelled |
| Sweeper.Sweeper.FollowRestricted | MineSweeper/sweeper.cpp:285-305 | every frontier neighbour ends in group k; other groups untouched; the result is the number of joinable neighbours at entry |
| Sweeper.Sweeper.VisitNeighbour | MineSweeper/sweeper.cpp:294-303 | a frontier neighbour not yet in group k is labelled, appended and flooded from |
| Sweeper.Sweeper.VerifyRestricted | MineSweeper/sweeper.cpp:334-372 | answers the acceptance test; on acceptance every group tile gains its trial mark as a vote, otherwise nothing changes |
| Sweeper.Sweeper.AddVotes | MineSweeper/sweeper.cpp:366-370 | adds each group tile's trial mark to its votes |
| Sweeper.Sweeper.TestLeaf | MineSweeper/sweeper.cpp:311-320 | writes the full path into the trial marks and tests it; counts 1 exactly when accepted |
| Sweeper.Sweeper.MarkPath | MineSweeper/sweeper.cpp:313-318 | each group tile's trial mark becomes its bit of the path |
| Sweeper.Sweeper.TestRestricted | MineSweeper/sweeper.cpp:307-332 | returns the number of accepted completions of the path, leaves the votes and marks as `Tested`, restores `path` |

## Left out

- Randomness. Mine placement (board.cpp:15-21) takes a given sequence of positions instead of the random generator. The guesses of `solve` (sweeper.cpp:27-31) are a given sequence; unusable guesses are skipped, and running out of guesses ends `solve` with `Exhausted`. `RndGen` is not part of this model.
- Output: `dump` of both classes, the progress messages, the spinner with its `static` counter in `verifyRestricted`, and the floating-point `pow(2, …)` used only in a message. None of them affects the state.
- `main` (mine_sweeper.cpp) only constructs and prints.
- sweeper.hpp is an older declaration than sweeper.cpp. The tile fields and their start values come from their uses in sweeper.cpp: closed, unflagged, unrestricted, count -1, group -1, no votes, no trial mark.
- Sweeper.Sweeper.Deduce: the inner loop of `solve` takes a fuel bound on the number of rounds, given afresh at each guess. Restricted hits also lower `unsolved`, so it can go below 0, and then nothing stops the source's loop. Running out of fuel ends `solve` with `Exhausted`; fuel of at least `size()` runs out only in that case.
- Sweeper.Sweeper.Solve: a hit inside `solveRestricted` is not reported. Its `check` result is discarded. `Hits` records it and `Solve` states that hits never decrease.
- Restricted.GroupPassSafe: no mine is hit only under the premise that the assignment matching the board is accepted, and that premise can fail. `verifyRestricted` (sweeper.cpp:348-364) counts trial marks on every neighbour of an opened tile, and tiles of other groups never carry one. When an opened tile borders two groups, the matching assignment of one group can be rejected, a mine of that group can end with no votes, and `solveRestricted` opens it. No concrete board showing this is part of the model.
- The `std::function` predicates of `getAdjecent` and `countAdjecent` are Dafny predicates on tiles (`Any`, `IsChecked`, `IsFlagged`, `Unopened`, `IsTestMine`, `Joinable(k)`).
- The full model cannot be compiled to run. The mine set is ghost, and the transitions `BlanksPass`, `GroupPass`, `RestrictedPass` and `Tested` are ghost.
- `m_tiles` is a `seq<seq<Tile>>` field reassigned tile by tile, not an aliased nested vector.
- The group lists are `seq<seq<Coord>>`; `emplace_back` is appending.
- Integers are unbounded; no counter in the source comes near overflow for a board that fits in memory.
