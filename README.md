# Goosetown in Dafny

Goosetown is a dashboard that shows a tree of AI delegates as geese.

- **Village view.** Geese walk on a 2-D tile map between landmark buildings.
- **Town view.** Geese live in a 3-D town with a pen, a message board and a side panel.
- **Map editor.** A page edits the tile map that the village loads.

This project models the logic of that dashboard in Dafny and proves what its code promises:
- the building registry and the role each delegate is given;
- the tile and decoration tables;
- the map loader and its landmark scan;
- the A* path search;
- the village's goose reconciliation and frame loop;
- the map editor's grid;
- the 3-D goose's state machine;
- the town's message board and its tree and wall handlers;
- the app's render coalescer, tab title, delegate selection and message paging;
- the panel's formatters, artifact list and desk browser.

One Dafny module corresponds to one source file, plus two shared modules.
- `Text` holds the JavaScript string operations the code relies on: `trim`, `split`, `join`, `includes`, `String(n)`, and `toLowerCase` restricted to ASCII letters.
- `Grid` holds the tile costs and routes of the path search.

Mutable module state becomes a class whose methods update its fields:
- `Village.VillageState`;
- `Goose3D.Goose`;
- `Town3D.TownScene`;
- `App.RenderLoop` and `App.ClientState`;
- `Editor.MapEditor`, over an `array2<char>`.

Loops of the source are methods with loop invariants, with two exceptions. The loop that builds the sender map (ui/js/village.js:481-483) is the recursive function Village.LastSenderFor. The search for a penned orchestrator in `onWall` (ui/town/town.js:413-418) is an `exists` in the contract of Town3D.TownScene.OnWall. Each method is proved against a function that specifies it, and the lemmas state what the source promises about that function.

## Model

| member | source | states |
|---|---|---|
| Buildings.LookupFindsKeys | ui/js/buildings.js:13-70 | a registry lookup succeeds exactly when some entry carries that map character |
| Buildings.BuildingChars | ui/js/buildings.js:72 | `BUILDING_CHARS` has one character per registry entry, in declaration order |
| Buildings.BuildingCharsListed | ui/js/buildings.js:72 | the building characters are B, L, I, F, C, H, W, S, M in that order |
| Buildings.BuildingCharsAreTableKeys | ui/js/buildings.js:56-72 | a character is a building character exactly when the registry has an entry for it; the reserved decoration characters T, O, R, G never are |
| Buildings.KeyOfFollowsTable | ui/js/buildings.js:13-70 | the key lookup used by the map scan agrees with the registry entry's `key`, and is present exactly when the entry is |
| Buildings.PairRoles | ui/js/buildings.js:75 | each role of a building is paired with that building's key, in order |
| Buildings.FromEntriesAppend | ui/js/buildings.js:74-76 | `Object.fromEntries` over two runs of entries is the first map overridden by the second |
| Buildings.RoleToBuildingIsRoleMap | ui/js/buildings.js:74-76 | `ROLE_TO_BUILDING` is the nine-entry map from each listed role to its building |
| Buildings.RoleToBuilding | ui/js/buildings.js:74-76 | `ROLE_TO_BUILDING`, the nine-entry role map (`RoleToBuildingIsRoleMap`, `RoleToBuildingFollowsTable`) |
| Buildings.FoldRoles | ui/js/buildings.js:74-76 | folding a table with the registry's rows into a map gives that nine-entry map |
| Buildings.RoleToBuildingFollowsTable | ui/js/buildings.js:74-76 | every role listed by a building maps to that building's key |
| Buildings.RoleToBuildingOnlyListedRoles | ui/js/buildings.js:56-76 | every key of `ROLE_TO_BUILDING` is a role some building lists, and no role maps to the decorative apothecary or market |
| Buildings.InferRole | ui/js/buildings.js:87-96 | the inferred role is one of the six documented roles, and an absent name gives `generic` |
| Buildings.RoleOfLowered | ui/js/buildings.js:90-95 | the pattern groups only ever give one of the six documented roles |
| Buildings.InferRoleIsFirstMatch | ui/js/buildings.js:87-96 | `inferRole` returns the role of the first group in the priority table with a pattern that occurs in the lower-cased name, else `generic` |
| Buildings.InferRoleIgnoresCase | ui/js/buildings.js:89 | lower-casing the name first changes nothing |
| Buildings.EveryInferredRoleHasBuilding | ui/js/buildings.js:74-96 | every inferred role has a building in `ROLE_TO_BUILDING`, and `generic` goes to the forge |
| Tiles.TileForCharFollowsTables | ui/js/tiles.js:22-45 | a terrain character gets its own tile at the given position; any other building character gets a plaza tile; everything else gets no tile |
| Tiles.TileForChar | ui/js/tiles.js:22-45 | the terrain tile of a map character (`TileForCharFollowsTables`, `GrassAndFountainHaveNoTile`) |
| Tiles.GrassAndFountainHaveNoTile | ui/js/tiles.js:22-45 | grass `.` and fountain `K` have no terrain tile |
| Tiles.PineSeed | ui/js/tiles.js:58 | the pine seed `(px * 7 + py * 13) & 0xFFFF` lies in 0..65535 |
| Tiles.DecorationPlacement | ui/js/tiles.js:54-78 | exactly T, O, *, R, l, p and G are decorations; the oak sits 15 px up; bush, rock, lamp, pipes and gear sit on the tile; the pine is jittered by the seed and lifted 20 px |
| Tiles.DecoForChar | ui/js/tiles.js:54-78 | the decoration of a map character and its placement (`DecorationPlacement`, `PineJitterIsTranslationInvariant`) |
| Tiles.PineJitterIsTranslationInvariant | ui/js/tiles.js:56-62 | moving a pine by an offset that leaves the seed unchanged moves its drawn position by exactly that offset |
| Text.TrimStart | ui/js/village.js:29 | the left-trimmed string is a suffix of the input |
| Text.TrimEnd | ui/js/village.js:29 | the right-trimmed string is a prefix of the input |
| Text.TrimStartStrips | ui/js/village.js:29 | left trimming removes white space only, and all of it |
| Text.TrimEndStrips | ui/js/village.js:29 | right trimming removes white space only, and all of it |
| Text.TrimStrips | ui/js/village.js:29 | `trim()` leaves a slice of the input, and everything cut from either end is white space |
| Text.TrimEnds | ui/js/village.js:29 | a trimmed string neither starts nor ends with white space |
| Text.TrimKeeps | ui/js/editor.js:55 | a string without white space at either end is left unchanged by `trim()` |
| Text.Split | ui/js/village.js:30 | `split` on one character gives at least one piece, and no piece holds the separator |
| Text.JoinSplit | ui/js/village.js:30 | joining the pieces of a split with the separator gives back the string |
| Text.SplitJoin | ui/js/editor.js:56 | splitting rows joined by a separator they do not contain gives back the rows |
| Text.NonEmpty | ui/js/village.js:31 | the filter keeps the non-empty lines in order |
| Text.NonEmptyKeeps | ui/js/village.js:31 | each line the filter keeps is non-empty and was in the input; input lines that are all non-empty are kept as they are |
| Text.TextLinesAreLines | ui/js/village.js:28-31 | every loaded map line is non-empty and free of line breaks |
| Text.ContainsOccurs | ui/js/buildings.js:90-94 | `includes` (and a regular expression made of one literal) holds exactly when the pattern occurs at some index |
| Text.ToLower | ui/js/buildings.js:89 | lower-casing keeps the length and maps each ASCII capital to its small letter, leaving every other character as it is |
| Text.ToLowerIdempotent | ui/js/buildings.js:89 | lower-casing twice is lower-casing once |
| Text.NatToString | ui/js/app.js:220 | `String(n)` is a non-empty run of digits without a leading zero |
| Text.ParseNat | ui/town/panel.js:43-48 | parsing succeeds exactly on non-empty runs of digits |
| Text.ParseNatToString | ui/js/app.js:216-221 | parsing the decimal rendering of `n` gives back `n` |
| Grid.CharCost | ui/js/village.js:59-72 | every passable tile costs between 1 and 5 |
| Grid.CostClasses | ui/js/village.js:62-71 | cost 1 for `:`, `+`, `=` and building characters; 2 for `#`; 5 for `.`, `A` and `K`; and a character is impassable exactly when it is none of these |
| Grid.CostAgreesWithTiles | ui/js/village.js:59-72 | every passable character other than grass and fountain has a terrain tile |
| Grid.Cost | ui/js/village.js:59-61 | a cell has a cost only inside the grid, and the cost is that of its character |
| Grid.Neighbors | ui/js/village.js:98-103 | the four neighbours of a cell are each one step away |
| Grid.AdjacentIsNeighbor | ui/js/village.js:98-103 | a cell is adjacent exactly when it is one of the four neighbours |
| Grid.HeuristicConsistent | ui/js/village.js:74 | the Manhattan heuristic never drops by more than the cost of a step, so it is consistent |
| Grid.Heuristic | ui/js/village.js:74 | the Manhattan distance between two cells, a consistent heuristic (`HeuristicConsistent`) |
| Grid.RoutePrepend | ui/js/village.js:105-125 | a step onto a passable neighbour followed by a route is a route, with the step's cost added |
| Grid.NoRoutesInEmptyGrid | ui/js/village.js:55 | in a grid without columns the only route is the empty one |
| Pathfinder.InsertByF | ui/js/village.js:83 | insertion by `f` keeps the same cells plus the new one |
| Pathfinder.InsertKeepsSorted | ui/js/village.js:83 | insertion by `f` keeps a list sorted by `f` sorted |
| Pathfinder.InsertAt | ui/js/village.js:83 | the new cell goes in at one index: every cell before it has a strictly smaller `f`, and the cell after it has an `f` at least as large, so among equal `f` values the earlier-pushed cells stay first |
| Pathfinder.SortByF | ui/js/village.js:83 | the sort by `f` is a permutation and is sorted |
| Pathfinder.SortedHeadIsMin | ui/js/village.js:83-84 | the node the search takes first has the least `f` in the open list |
| Pathfinder.FrontierBound | ui/js/village.js:82-127 | every route to an unexpanded cell passes an open cell whose `f` is at most the route's cost plus the heuristic |
| Pathfinder.PopIsOptimal | ui/js/village.js:83-96 | the open cell with the least `f` already has its cheapest cost |
| Pathfinder.ExhaustedMeansUnreachable | ui/js/village.js:82-128 | when the open list runs out before reaching the goal, no route to the goal exists |
| Pathfinder.StartExpanding | ui/js/village.js:83-96 | taking the least-`f` open cell and closing it keeps the search invariant |
| Pathfinder.RelaxNew | ui/js/village.js:113-120 | pushing a newly seen neighbour keeps the invariant |
| Pathfinder.RelaxBetter | ui/js/village.js:121-125 | lowering a known neighbour's cost keeps the invariant |
| Pathfinder.RelaxSkip | ui/js/village.js:106-108 | skipping a closed or impassable neighbour keeps the invariant |
| Pathfinder.FinishExpanding | ui/js/village.js:105-126 | after all four neighbours the search invariant holds again |
| Pathfinder.InitialInv | ui/js/village.js:76-79 | the open list holding only the start, with cost 0, satisfies the search invariant |
| Pathfinder.FoundGoal | ui/js/village.js:86-94 | the path rebuilt at the goal ends there and is cheapest |
| Pathfinder.FindPath | ui/js/village.js:54-129 | the path, when not empty, is a route from the start to the goal that avoids the start and that no other route beats in cost; it is empty exactly when start and goal coincide or the goal is unreachable, and always on a grid without rows or columns |
| Pathfinder.RelaxNeighbors | ui/js/village.js:98-126 | the neighbour loop relaxes all four neighbours |
| Pathfinder.Reconstruct | ui/js/village.js:87-93 | following parents from the goal yields a route that avoids the start, ends at the goal and costs exactly the goal's `g` |
| Village.IndexOf | ui/js/village.js:27 | a found marker position leaves room for the marker |
| Village.IndexOfSpec | ui/js/village.js:27 | the marker search finds the first occurrence at or after its start, and reports none only when there is none |
| Village.IndexOfFirst | ui/js/village.js:27 | the search from the start finds the first marker |
| Village.MapSectionAfterMarker | ui/js/village.js:27-28 | with a single `[Map]` marker the map section is everything after it |
| Village.MapSectionBetweenMarkers | ui/js/village.js:27-28 | with a second marker the section stops right before it |
| Village.MapSection | ui/js/village.js:27-28 | the text after the `[Map]` marker, up to the next marker (`MapSectionAfterMarker`, `MapSectionBetweenMarkers`) |
| Village.ScanRowsInv | ui/js/village.js:37-47 | after scanning any number of rows, each building seen is recorded at its last occurrence so far |
| Village.LandmarksAreLastOccurrences | ui/js/village.js:37-47 | `BUILDING_POSITIONS` has a key exactly when its character is on the map, and records the last such cell in row-major order |
| Village.Landmarks | ui/js/village.js:37-47 | `BUILDING_POSITIONS`, each building at its last cell in row-major order (`LandmarksAreLastOccurrences`) |
| Village.ScanLandmarks | ui/js/village.js:37-47 | the nested scan loop computes that landmark table |
| Village.InitMap | ui/js/village.js:23-50 | the grid is the non-empty lines of the map section, with its landmark table; the width is the first row's length and the height the number of rows, both in pixels |
| Village.TargetBuildingRules | ui/js/village.js:261-265 | a complete, error or idle goose heads for the barn; any other goose heads for its role's building, or the forge for a role no building lists, except that a role named like an inherited object member (`constructor`, `toString`, ...) finds no building; never a decorative building |
| Village.TargetBuilding | ui/js/village.js:261-265 | the destination building's key, or none for an inherited member name (its properties are `TargetBuildingRules`) |
| Village.TargetCellRules | ui/js/village.js:393-397 | the goose's cell is its building's landmark when the map has it, else the barn's; it is skipped only on a map without a barn, and an inherited member name as role always falls back to the barn |
| Village.FindSession | ui/js/village.js:384 | the session found has the requested id; none is found only when no session has it |
| Village.FindSessionFirst | ui/js/village.js:384 | `find` returns the first session with the requested id |
| Village.AllDelegates | ui/js/village.js:382-388 | the delegates are the children, then possibly the launching session under the orchestrator role, but only when it exists and its name does not mention `dashboard`; conversely, when it exists and its name does not, it is appended |
| Village.IdsWhereExact | ui/js/village.js:392-397 | an id is collected exactly when one of the listed delegates with that id passes the test |
| Village.ReconciledIdsExact | ui/js/village.js:392-397 | a delegate gets a goose exactly when its target building or the barn is on the map |
| Village.ReconciledIdsAreListed | ui/js/village.js:392-397 | the delegates with geese are listed ones; when the barn is on the map, every listed delegate gets one |
| Village.NewGoose | ui/js/village.js:406-421 | a new goose stands idle and visible on its spawn cell, with no path and no speech |
| Village.SpawnStandsOnItsCell | ui/js/village.js:410-415 | a new goose's pixel position lies in its spawn cell |
| Village.RecentBySenderIsLatest | ui/js/village.js:469-474 | a sender has a speech entry exactly when it sent a message younger than eight seconds, and the entry is its last such message |
| Village.RecentBySenderKeys | ui/js/village.js:469-474 | the senders with an entry are exactly those with a recent message |
| Village.RecentBySender | ui/js/village.js:469-474 | each sender's latest message younger than eight seconds (`RecentBySenderIsLatest`, `RecentBySenderKeys`) |
| Village.CollectRecent | ui/js/village.js:469-474 | the loop computes that latest-message table |
| Village.LastSenderFor | ui/js/village.js:481-483 | the sender found is the last `sender_map` entry naming the goose, and is empty when none does |
| Village.LastSenderIsLastEntry | ui/js/village.js:481-483 | when entry `i` names the goose and no later entry does, the sender found is entry `i`'s |
| Village.Truncate | ui/js/village.js:490 | a text up to 120 characters is kept; a longer one keeps its first 120 characters followed by `...` |
| Village.SpeechIsLatestRecentMessage | ui/js/village.js:476-494 | a goose speaks exactly when its sender has a recent message, and then it speaks that message truncated |
| Village.SpeechFor | ui/js/village.js:476-494 | a goose's speech: its sender's latest recent message, truncated (`SpeechIsLatestRecentMessage`) |
| Village.FrameSpeed | ui/js/village.js:288-291 | a frame covers at most 160 px/s times the 0.05 s clamp, never a negative distance going forward, and exactly the elapsed time's share below the clamp |
| Village.StepGoose | ui/js/village.js:296-327 | a frame changes only position, path, action and visibility, and reports an arrival exactly when the path runs out; `norm` must be the Euclidean length, and then the goose moves at most `speed` (`StepMovesAtMostSpeed`) |
| Village.Advance | ui/js/village.js:295-352 | a goose without a path is left as it is |
| Village.SegmentFraction | ui/js/village.js:325-326 | moving `speed` along a vector of length `dist` covers the fraction `speed / dist`, which lies in 0..1 |
| Village.StepNeverOvershoots | ui/js/village.js:303-327 | a frame either snaps the goose onto its next node, or leaves it part of the way along the segment toward it, never beyond; a goose that does not reach its next node keeps its whole path |
| Village.StepFractionBounded | ui/js/village.js:325-326 | the distance a partial step covers lies between zero and the speed |
| Village.StepMovesAtMostSpeed | ui/js/village.js:303-327 | with `norm` the Euclidean length, a frame moves the goose by at most `speed`, whether it snaps or not |
| Village.FrameMovesAtMost | ui/js/village.js:288-352 | with time going forward, no goose moves more than 160 px/s times the 0.05 s clamp in one frame |
| Village.ArrivalRests | ui/js/village.js:312-323 | arriving at the last node puts the goose to rest, working while active and idle otherwise, and hides a settled goose at the barn |
| Village.StillWalking | ui/js/village.js:296-327 | a goose still on its way keeps walking and keeps its visibility |
| Village.StepAllVisit | ui/js/village.js:295-353 | stepping one more goose keeps the frame loop's invariant and shrinks what is left |
| Village.StepAllDone | ui/js/village.js:295-353 | once every goose is visited, the loop has stepped each one and has set its flags from all of them |
| Village.StepAll | ui/js/village.js:295-353 | the frame loop steps every goose, flags an active path exactly when some goose has one, and flags a re-render exactly when some goose arrives |
| Village.SpeakAll | ui/js/village.js:476-495 | the speech loop gives every goose its bubble and changes nothing else |
| Village.Retarget | ui/js/village.js:427-448 | a goose is sent walking only along a cheapest route to its new target, and otherwise is left as it was, which happens only when it already stands there or the target is unreachable |
| Village.RetireThenSpeak | ui/js/village.js:464-495 | retiring geese and then setting speech is the same as setting speech on the geese that stay |
| Village.VillageState.constructor | ui/js/village.js:18-52 | the module's load parses the map, scans its landmarks, sets the pixel size and starts with no geese, no loop and the village visible |
| Village.VillageState.StartLoop | ui/js/village.js:276-279 | the loop runs afterwards, and its clock restarts only if it was stopped |
| Village.VillageState.SetVillageVisible | ui/js/village.js:271-274 | records visibility, and showing the village starts the loop |
| Village.VillageState.OnVisibilityChange | ui/js/village.js:369-372 | the loop restarts only when the tab becomes visible and some goose has a path |
| Village.VillageState.Tick | ui/js/village.js:281-364 | a hidden tab or village stops the loop and changes no goose; otherwise every goose takes its frame step, the loop goes on exactly while some goose had a path, a re-render is asked for exactly when one arrived, and with time going forward no goose moves more than the clamped frame distance |
| Village.VillageState.ReconcileDelegate | ui/js/village.js:392-461 | a delegate with nowhere to go is skipped; otherwise its goose exists afterwards, takes the delegate's status, and either walks a cheapest route to a new target or rests there, hidden exactly when settled at the barn; no other goose changes, and the loop is started, with its clock restarted only if it was stopped, exactly when the goose walks off |
| Village.VillageState.ReconcileAll | ui/js/village.js:392-462 | after the delegate loop, the geese are the earlier ones plus one per delegate that has somewhere to go; each delegate listed once is reconciled as `ReconcileDelegate` states, every other goose is untouched, and the loop runs if any goose walked off |
| Village.VillageState.ReconcileTurn | ui/js/village.js:392-461 | one turn of the delegate loop keeps the loop's invariants (`TurnsDone`) and leaves the map and visibility alone |
| Village.ReconcileStep | ui/js/village.js:392-461 | one delegate's reconciliation extends the loop invariant: the earlier delegates stay reconciled and the later ones' geese stay untouched |
| Village.VillageState.Retire | ui/js/village.js:464-466 | exactly the geese of delegates no longer listed are dropped |
| Village.VillageState.AttachSpeech | ui/js/village.js:476-495 | each goose's speech becomes its sender's latest recent message, truncated, or none |
| Village.VillageState.UpdateVillageState | ui/js/village.js:374-498 | the reconciled geese are the earlier ones plus one per delegate with somewhere to go, each delegate listed once reconciled as `ReconcileDelegate` states; afterwards only those of live delegates remain, each speaking its sender's latest recent message |
| Village.ReconcileAgainKeepsIdentity | ui/js/village.js:392-461 | reconciling an already reconciled goose against the same delegate keeps its id, wall id, role and status |
| Village.UpdateKeysIdempotent | ui/js/village.js:392-466 | a second update with the same delegates and map leaves the set of goose ids as the first left it |
| Editor.LoadedGrid | ui/js/editor.js:49-62 | a load always yields 25 rows of 60 cells |
| Editor.Export | ui/js/editor.js:66-68 | an export is 25 rows of 60 characters joined by 24 line breaks |
| Editor.ExportEnds | ui/js/editor.js:66-68 | the export of a grid without white space starts and ends with a cell character |
| Editor.LoadExport | ui/js/editor.js:49-68 | loading the export of a grid without white-space cells gives back that grid |
| Editor.CopyLines | ui/js/editor.js:58-62 | after the copy loops, each cell holds the line's character there, or grass where the lines run out |
| Editor.Painted | ui/js/editor.js:127-132 | painting sets only the chosen in-range cell to the brush; out of range nothing changes |
| Editor.PaintIdempotent | ui/js/editor.js:127-132 | painting the same cell twice with the same brush is the same as painting it once |
| Editor.CellOf | ui/js/editor.js:124-125 | the cell index found by `Math.floor` is the tile whose span contains the coordinate |
| Editor.FountainBlockDrawnOnce | ui/js/editor.js:157-163 | a block of fountain cells with clear left and upper sides is drawn once, from its top-left cell |
| Editor.MapEditor.Cells | ui/js/editor.js:40-42 | the grid read as a value is 25 by 60 and agrees with the array |
| Editor.MapEditor.constructor | ui/js/editor.js:40-43 | the page starts with an all-grass grid and the dirt-path brush |
| Editor.MapEditor.SelectBrush | ui/js/editor.js:259-261 | a palette click sets the brush and leaves the grid alone |
| Editor.MapEditor.LoadMapString | ui/js/editor.js:49-64 | after a load the grid is a fresh one holding exactly the loaded grid of the text |
| Editor.MapEditor.ExportMapString | ui/js/editor.js:66-68 | the export, which loads back to the same grid when no cell is white space |
| Editor.MapEditor.PaintTile | ui/js/editor.js:127-132 | the grid becomes the painted grid, and a redraw happens exactly when an in-range cell changed |
| Editor.MapEditor.PaintAt | ui/js/editor.js:112-133 | painting at canvas coordinates paints the cell whose tile contains them |
| Editor.MapEditor.FountainAnchors | ui/js/editor.js:142-165 | the canvas draws a fountain at exactly the cells that pass the top-left test |
| Messages.NormalizeWallMsg | ui/js/app.js:82-90 | a wall line keeps its fields, with a missing field given as empty, and is stamped with the time it was received |
| App.ScheduleIdempotent | ui/js/app.js:39-41 | scheduling a render while one is pending requests no further frame |
| App.CoalescerKeepsOnePending | ui/js/app.js:37-53 | scheduling and running frames keep at most one frame pending, and after a frame has run the next schedule requests a new one |
| App.RenderLoop.constructor | ui/js/app.js:37 | the coalescer starts with no frame pending |
| App.RenderLoop.ScheduleRender | ui/js/app.js:39-42 | the coalescer's state moves as one schedule step |
| App.RenderLoop.OnFrame | ui/js/app.js:42-43 | the frame callback clears the flag before drawing |
| App.TabTitleRules | ui/js/app.js:208-222 | a lost connection wins; then all children complete with none active; then the active count; else the plain title |
| App.TabTitle | ui/js/app.js:208-222 | the tab title chosen from the connection and the child counts (`TabTitleRules`) |
| App.TitleTextDistinct | ui/js/app.js:210-221 | two titles have the same text exactly when they are the same title, active counts included |
| App.TitleText | ui/js/app.js:210-221 | the text of a title, distinct for distinct titles (`TitleTextDistinct`, `TitleMarks`) |
| App.TitleMarks | ui/js/app.js:210-221 | only the plain title is nine characters long; the others are told apart by the character after `Goosetown ` |
| App.ArrowSteps | ui/js/app.js:383-384 | the right arrow moves to the next tab and wraps from the last to the first; the left arrow does the reverse |
| App.ArrowRules | ui/js/app.js:379-386 | the arrows always land on a tab and wrap at both ends, any other key moves nowhere, and left undoes right and right undoes left |
| App.ArrowTarget | ui/js/app.js:379-386 | the tab an arrow key moves to (`ArrowSteps`, `ArrowRules`) |
| App.OlderRequestFor | ui/js/app.js:187-195 | older messages are asked for only with a delegate selected, messages shown and a known time on the oldest message, anchored at its `created` time, else at its `created_timestamp` |
| App.ClientState.constructor | ui/js/app.js:10 | the client starts disconnected with no messages, no selection and nothing unread |
| App.ClientState.OnWall | ui/js/app.js:131-147 | a wall message is appended as new with its arrival time, and counts as unread only when the feed is scrolled away from the top |
| App.ClientState.SelectDelegate | ui/js/app.js:162-169 | an empty id does nothing; otherwise the delegate is selected on its conversation tab with no messages until its page arrives |
| App.ClientState.OnMessagesLoaded | ui/js/app.js:173-181 | a page is shown only when it arrived and its delegate is still selected; anything else changes nothing |
| App.ClientState.LoadOlderMessages | ui/js/app.js:187-195 | the request is exactly the one that decision gives |
| App.ClientState.OnOlderLoaded | ui/js/app.js:196-202 | an older page goes before the messages shown when it was asked for, only while its delegate is still selected |
| App.OlderPrepended | ui/js/app.js:200 | older messages come first, in order, and the messages already shown stay as the tail |
| Goose3D.GoneToBoardRules | ui/town/goose.js:211-226 | a goose already posting or reading ignores the call; otherwise it walks toward a point within the approach offset in front of the board, with the action pending and the callback registered |
| Goose3D.GoneToBoard | ui/town/goose.js:211-226 | the board step of a goose (`GoneToBoardRules`) |
| Goose3D.GoneHomeRules | ui/town/goose.js:228-235 | going home walks to a point within one unit of home, with nothing pending |
| Goose3D.GoneHome | ui/town/goose.js:228-235 | the go-home step of a goose (`GoneHomeRules`) |
| Goose3D.SentToPenRules | ui/town/goose.js:199-208 | a penned goose gets a home at least half a unit inside the fences, walks to it, and drops any pending board action |
| Goose3D.SentToPen | ui/town/goose.js:199-208 | the pen step of a goose (`SentToPenRules`) |
| Goose3D.PenCoordInside | ui/town/goose.js:202-203 | the drawn pen coordinate lies half a unit inside the pen |
| Goose3D.MoveNeverOvershoots | ui/town/goose.js:257-260 | the step is `min(1.5 * dt, dist)`, so the goose never passes its target and the distance left drops to zero exactly when the step reaches it |
| Goose3D.MovingFrame | ui/town/goose.js:242-263 | a frame of a goose still more than 0.05 from its target only moves it |
| Goose3D.UnloadedFrame | ui/town/goose.js:239 | nothing happens before the model has loaded |
| Goose3D.ArrivalStartsAction | ui/town/goose.js:271-282 | arriving with a board action pending starts it, with its 2.5 s or 3.5 s dwell already reduced by this frame, and fires a registered callback |
| Goose3D.ArrivalWithoutActionIdles | ui/town/goose.js:283-285 | arriving with nothing pending leaves the goose idle |
| Goose3D.CallbackFiresOnce | ui/town/goose.js:279-282 | the arrival callback fires at most once: firing clears it, and a goose without one fires nothing |
| Goose3D.DwellTimerRules | ui/town/goose.js:293-301 | the dwell timer runs only at the board while standing still, and when it runs out the goose walks home |
| Goose3D.PenWanderStaysInPen | ui/town/goose.js:320-332 | a penned idle goose whose timer is spent strolls to a point 0.3 inside the fences and waits 5 to 13 s next time |
| Goose3D.OutsideWanderRules | ui/town/goose.js:333-339 | outside the pen a goose that is not complete wanders within 1.25 of home and waits 8 to 20 s; a complete goose never wanders |
| Goose3D.Goose.constructor | ui/town/goose.js:62-92 | a new goose is idle at the origin, out of the pen, with zero counters and a wander timer drawn from 0 to 10 s |
| Goose3D.Goose.ModelLoaded | ui/town/goose.js:127-130 | once the model loads, the goose stands at home with home as its target |
| Goose3D.Goose.PlaceAtHome | ui/town/town.js:389 | moving the mesh onto its home leaves no distance to walk |
| Goose3D.Goose.SetHome | ui/town/goose.js:154-158 | home, target and position all become the new point |
| Goose3D.Goose.UpdateFromTree | ui/town/goose.js:161-169 | the status and counters are copied, with absent counters read as 0, and a non-empty `gtwall_id` is adopted; the counters are exactly `Tallied` of the old ones |
| Goose3D.TalliedRules | ui/town/goose.js:161-166 | the tree's tokens and message count are taken, absent ones read as 0; the session id becomes the tree id; a non-empty gtwall id is adopted and an empty one keeps the old; applying the same tree again changes nothing, and the result depends on the old counters only through the gtwall id |
| Goose3D.Goose.SendToPen | ui/town/goose.js:199-208 | the goose's new state is the pen step's, so its home lies inside the fences and any pending action is dropped (`SentToPenRules`) |
| Goose3D.Goose.GoToBoard | ui/town/goose.js:211-226 | the goose's new state is the board step's, so a busy goose ignores the call and any other walks to the board (`GoneToBoardRules`) |
| Goose3D.Goose.GoHome | ui/town/goose.js:228-235 | the goose's new state is the go-home step's, a walk to within one unit of home (`GoneHomeRules`) |
| Goose3D.Goose.Move | ui/town/goose.js:257-263 | the goose's new state is the move step's, so it never passes its target (`MoveNeverOvershoots`), and its identity and counters are untouched |
| Goose3D.Goose.Arrive | ui/town/goose.js:271-286 | the goose's new state and the fired flag are the arrival step's, so a pending action starts and the callback fires at most once (`ArrivalStartsAction`, `CallbackFiresOnce`) |
| Goose3D.Goose.RunDwell | ui/town/goose.js:293-301 | the goose's new state is the dwell step's, so the timer runs only at the board while standing still and its end sends the goose home (`DwellTimerRules`) |
| Goose3D.Goose.Wander | ui/town/goose.js:320-341 | the goose's new state is the wander step's, so a penned goose stays in the pen and a complete goose outside never wanders (`PenWanderStaysInPen`, `OutsideWanderRules`) |
| Goose3D.Goose.Update | ui/town/goose.js:238-342 | a frame updates the goose exactly as the frame function says, so every lemma about that function holds for the goose |
| Goose3D.Updated | ui/town/goose.js:238-342 | the frame function of a goose, which `Goose.Update` follows and its lemmas describe |
| Town3D.KeyDeterminesMessage | ui/town/town.js:83-85 | when neither the timestamp nor the sender holds a colon, two wall messages have the same de-duplication key exactly when they are the same message |
| Town3D.KeyDeterminesMessageSameLength | ui/town/town.js:83-85 | for timestamps of equal length and senders without a colon, two wall messages have the same key exactly when they are the same message |
| Town3D.WallMsgKey | ui/town/town.js:83-85 | the de-duplication key `timestamp:sender:text`, which tells messages apart (`KeyDeterminesMessage`, `KeyDeterminesMessageSameLength`) |
| Town3D.FirstColonSplits | ui/town/town.js:83-85 | two joins at a colon are equal and the first parts have no colon only if both parts agree |
| Town3D.WindowRules | ui/town/town.js:91-92 | after a push, the newest message ends the window and the window never exceeds six; below six the message is appended, and at six the oldest one is dropped |
| Town3D.Window | ui/town/town.js:91-92 | the last six messages pushed (`WindowRules`) |
| Town3D.WrapFromRules | ui/town/town.js:96-111 | the greedy wrap from any partial line emits no empty line; a line wider than the limit is a single word; the lines hold the non-empty words in order |
| Town3D.WrappedRules | ui/town/town.js:96-111 | the same three properties for the wrap of a whole text split at spaces |
| Town3D.Wrapped | ui/town/town.js:96-111 | the greedy word wrap of a text (`WrappedRules`) |
| Town3D.WrapText | ui/town/town.js:96-111 | the word loop computes the greedy wrap |
| Town3D.Capped | ui/town/town.js:128-131 | a message shows at most three lines |
| Town3D.CappedRules | ui/town/town.js:127-134 | a message of three lines or fewer shows all of them; a longer one shows its first two lines and its third with an ellipsis |
| Town3D.LayoutBounds | ui/town/town.js:120-137 | from any start on the board, every drawn baseline lies between the start and 360 + 2 × 18, and baselines strictly increase |
| Town3D.Layout | ui/town/town.js:120-137 | the lines drawn for a window, which stay on the board and go down it (`LayoutBounds`, `BoardBounds`) |
| Town3D.BoardBounds | ui/town/town.js:113-139 | for any window, every board line starts at or below 24 and no lower than a three-line block started at 360, and the lines go down the board in order |
| Town3D.DrawMessage | ui/town/town.js:129-134 | the inner loop draws the capped lines one line height apart, and the next baseline is below the last of them |
| Town3D.LayoutBoard | ui/town/town.js:120-137 | the drawing loop, with its break once the baseline passes 360, produces the board layout of the window |
| Town3D.DrawBlock | ui/town/town.js:122-136 | one message of the drawing loop either completes the board or keeps the loop invariant that what is drawn plus the rest of the layout is the whole board |
| Town3D.BoardVisit | ui/town/town.js:129-136 | the loop invariant step, covering both the break and the continuation |
| Town3D.KeysOfMembers | ui/town/town.js:469-471 | a key is among the keys of a run of wall lines exactly when one of those lines has it |
| Town3D.TownScene.constructor | ui/town/town.js:80-81 | the scene starts with an empty window, no seen keys, an empty board, no geese and no running launch |
| Town3D.TownScene.RedrawBoard | ui/town/town.js:113-139 | the board shows the layout of the current window, and nothing else changes |
| Town3D.TownScene.UpdateBoardTexture | ui/town/town.js:87-94 | a message whose key was seen changes nothing; a new key is remembered, the message joins the window with the oldest dropped beyond six, and the board is redrawn; the window keeps at most six messages with distinct, seen keys |
| Town3D.TownScene.WallReset | ui/town/town.js:520-532 | the reset forgets every goose, message and key, and draws an empty board |
| Town3D.TownScene.BootstrapWall | ui/town/town.js:468-472 | the window and seen keys are those of feeding the last six wall lines one by one to the board, so the seen keys grow by exactly their keys; the board is redrawn from the final window when a key was new and is untouched otherwise |
| Town3D.FedTwiceIsFedOnce | ui/town/town.js:87-94 | feeding a run of messages adds exactly their keys to the seen set, and feeding the same run again changes nothing |
| Town3D.FedKnown | ui/town/town.js:87-94 | a run whose keys were all seen leaves the window and the seen keys as they were |
| Town3D.TownScene.OnChild | ui/town/town.js:362-400 | a child without a key changes nothing. A seen key keeps its goose object, which takes the refresh step `Refreshed`, the tree's status, and the tree's counters (`Tallied`: tokens, message count, session id, and a non-empty gtwall id). A new key gets one fresh goose. Its role is the child's or `generic`. Its state is `Spawned` at the home `HomeFor` gives: the centre for an orchestrator, else ring slot `geese.size` of `max(children.length - 1, 1)`. Its counters are `SpawnTally` and its status `SpawnStatus`. Geese of other keys are unchanged, no penned goose leaves the pen, and a child due in the pen is penned |
| Town3D.TownScene.AddChild | ui/town/town.js:365-390 | a first-seen child gets exactly one new, fresh goose under its key, with role `SpawnRole`, home `HomeFor` (centre for an orchestrator, else ring slot `geese.size` of `max(children.length - 1, 1)`), state `Spawned` and counters `SpawnTally`; other keys keep their geese |
| Town3D.TownScene.RefreshChild | ui/town/town.js:392-398 | a seen child's goose takes the refresh step `Refreshed` and the tree's counters `Tallied`; every other goose object is unchanged |
| Town3D.TownScene.OnTree | ui/town/town.js:359-404 | after a tree, the goose keys are the old keys plus the tree's keys. Old geese are kept, new ones are fresh, and every key keeps a goose object of its own (`Unaliased`, kept from the constructor and `WallReset`). The board is untouched, no penned goose leaves the pen, and every goose some child puts due in the pen is penned. Every goose ends with the status `StatusAfter` gives: the status of the last child with its key (`StatusAfterLast`), a first status for a goose created by its only child (`StatusAfterOnly`: the tree's status when penned at once, else `idle`), and its old status when no child names it (`StatusAfterUnnamed`) |
| Town3D.TownScene.TreeChildStep | ui/town/town.js:362-400 | one child of the tree loop keeps the pen invariants: geese penned at the start stay penned, and the geese due so far are all penned; statuses move as `StatusMoved` says |
| Town3D.TownScene.ChildTurn | ui/town/town.js:362-400 | `OnChild` as the tree loop sees it: keys grow by the child's key, geese stay the same objects with one object per key, penned geese stay penned, and every goose's status moves as `StatusMoved` says: unchanged unless the child names it, the tree's status for a seen goose, `SpawnStatus` for a new one |
| Town3D.TownScene.TreeTurn | ui/town/town.js:362-400 | one child moves the loop invariant `TreeSoFar` one child further: keys, kept geese, pens, one goose per key, and statuses as `StatusAfter` gives |
| Town3D.StatusStep | ui/town/town.js:362-398 | a status that moved as `StatusMoved` says for child `i` is the one `StatusAfter` gives for the children through `i` |
| Town3D.StatusAfterUnnamed | ui/town/town.js:362-398 | a key no child names keeps its status |
| Town3D.StatusAfterNamed | ui/town/town.js:362-398 | a key some child names has a goose with a status after the tree |
| Town3D.StatusAfterLast | ui/town/town.js:392-398 | a goose that existed before child `j`, the last child with its key, ends with that child's status |
| Town3D.StatusAfterOnly | ui/town/town.js:365-390 | a goose created by the only child with its key ends with the status that child gives a new goose |
| Town3D.GrownDistinct | ui/town/town.js:382 | adding a goose object not yet in the map under a new key keeps one object per key |
| Town3D.DueInExactly | ui/town/town.js:392-398 | a goose is due in the pen after a tree exactly when some child with its key is complete and is not the orchestrator of a running launch |
| Town3D.TownScene.OnWall | ui/town/town.js:406-425 | the board takes the message first; the handler throws exactly when the human posts while an orchestrator goose is penned; otherwise the sender's goose walks to the board to post |
| Town3D.TownScene.SetLaunchStatus | ui/town/town.js:676 | a launch counts as running exactly when the polled status is `running` |
| Town3D.TownScene.OnWallRead | ui/town/town.js:427-430 | the reader's goose, if there is one, walks to the board to read |
| Town3D.SpawnGoose | ui/town/town.js:365-390 | a first-seen goose gets the child's role or `generic`. It goes straight into the pen, standing at its pen home, exactly when the child is complete and is not the orchestrator of a running launch; then it also takes the tree's status and counters (tokens, message count, session id, gtwall id). Otherwise it is idle at its ring or centre home with zero counters. Its state is exactly `Spawned`, its counters `SpawnTally` (`SpawnedRules`) |
| Town3D.SpawnedRules | ui/town/town.js:365-390 | a new goose stands still at its home with no pending walk and a wander timer in [0, 10). When due in the pen it is penned and `complete`, with a home inside the pen bounds and the tree's counters. Otherwise it is idle, not penned, at the home it was given, with zero counters and no session id |
| Town3D.SpawnedStatus | ui/town/town.js:365-390 | a new goose's status is the tree's when it is penned at once, else `idle` |
| Town3D.RefreshGoose | ui/town/town.js:392-398 | a seen goose takes the tree's status and never leaves the pen. It is penned once complete, unless it is the orchestrator of a running launch, and a newly penned goose walks to its pen home; its new state is exactly the refresh step's. Its tokens and message count are the tree's, absent ones read as 0, its session id is the tree id, and a non-empty gtwall id is adopted (`Tallied`) |
| Town3D.RefreshedRules | ui/town/town.js:392-398 | the refresh step sets the status; it changes nothing else for a goose already penned or not complete, and pens a complete goose unless it is the orchestrator of a running launch |
| Panel.JsRem | ui/town/panel.js:45 | JavaScript's remainder has the sign of the dividend, is smaller than the divisor in magnitude, and agrees with the modulus for a non-negative dividend |
| Panel.IntToString | ui/town/panel.js:46-47 | `String(n)` is non-empty and is the decimal numeral for a non-negative `n` |
| Panel.PadStart2 | ui/town/panel.js:47 | the padded text is at least two characters: zeros followed by the original text |
| Panel.FormatElapsed | ui/town/panel.js:43-48 | the `42s` label under a minute, or the `3m 07s` label with the seconds padded to two digits, with no hours field; it reads back as its seconds (`ElapsedRoundTrip`) |
| Panel.ElapsedShape | ui/town/panel.js:43-48 | under a minute the label is the seconds and `s`; from a minute on it is the minutes, `m `, the two-digit seconds and `s` |
| Panel.TwoDigits | ui/town/panel.js:47 | a seconds field under 60 pads to exactly two digits and reads back as itself |
| Panel.ParseShort | ui/town/panel.js:46 | a short label reads back as its seconds |
| Panel.ParseLong | ui/town/panel.js:47 | a long label reads back as minutes × 60 + seconds |
| Panel.ElapsedRoundTrip | ui/town/panel.js:43-48 | every label for a non-negative whole number of seconds reads back as that number |
| Panel.FormatTokens | ui/town/panel.js:37-41 | millions from 1,000,000 up and thousands from 1,000 up, each with the scaled value that gives back the count; below 1,000 the plain decimal |
| Panel.TokensLabel | ui/town/panel.js:138 | a goose without a token count shows the label for 0 |
| Panel.ReplaceChar | ui/town/panel.js:51 | a global replacement whose replacement lacks the character leaves no occurrence of it |
| Panel.EscapeEach | ui/town/panel.js:50-52 | the per-character reference escape leaves no angle bracket |
| Panel.EscapeHtmlPerChar | ui/town/panel.js:50-52 | the two chained replacements equal escaping each character on its own, so `&gt;` from the first pass is not touched again |
| Panel.EscapeHtml | ui/town/panel.js:50-52 | the two chained replacements; the output has no angle brackets and escaping is idempotent (`EscapeHtmlNoAngles`, `EscapeHtmlIdempotent`) |
| Panel.EscapeHtmlNoAngles | ui/town/panel.js:50-52 | escaped text contains no `<` or `>` |
| Panel.EscapeHtmlIdempotent | ui/town/panel.js:50-52 | text without angle brackets is unchanged, so escaping twice equals escaping once |
| Panel.Truncated | ui/town/panel.js:183 | text of up to 2000 characters is kept whole; longer text keeps its first 2000 and gains one ellipsis |
| Panel.ToolResponseText | ui/town/panel.js:181-183 | an empty tool result shows nothing; any other shows angle-free text, which is the original when it was short and had no angle brackets |
| Panel.Or | ui/town/panel.js:219 | JavaScript's logical or on strings gives one of its two operands, and is empty only when the second one is |
| Panel.ArtifactOf | ui/town/panel.js:218-226 | a block yields an artifact exactly when it is a tool call named in the six artifact tools. It is a file artifact exactly for the editors and writers; its path is `path`, else `file_path`, else `unknown`, and its command is `command`, else `edit`, so neither is ever empty. A shell artifact carries the call's command |
| Panel.ToolKinds | ui/town/panel.js:209-222 | of the six artifact tools, the two text editors, `Write` and `Edit` make file artifacts, and the two shells make shell artifacts |
| Panel.EditorNamed | ui/town/panel.js:222 | any name containing `text_editor` is a file tool |
| Panel.NoEditorWithoutT | ui/town/panel.js:222 | a name without a `t` is a file tool only if it is `Write` or `Edit` |
| Panel.Qualifying | ui/town/panel.js:216-220 | every kept block yields an artifact |
| Panel.BlockArtifactsMatchQualifying | ui/town/panel.js:217-226 | the artifacts of a block run correspond one-to-one, in order, to its qualifying blocks |
| Panel.BlockArtifacts | ui/town/panel.js:217-226 | the artifacts of one message's blocks, matched one-to-one with the qualifying blocks (`BlockArtifactsMatchQualifying`) |
| Panel.ArtifactsInOrder | ui/town/panel.js:214-228 | the i-th artifact of a conversation is made from its i-th qualifying block, across all messages in order |
| Panel.CollectArtifacts | ui/town/panel.js:214-228 | the double loop over messages and blocks produces the conversation's artifacts |
| Panel.LastSegment | ui/town/panel.js:361 | the last path segment holds no `/` |
| Panel.DirOf | ui/town/panel.js:361 | the directory part of a path, which with `/` and the last segment rebuilds it (`DirRebuild`) |
| Panel.DirRebuild | ui/town/panel.js:361 | a path containing `/` is its directory, `/` and its last segment; any other path is in `.` |
| Panel.InDir | ui/town/panel.js:358-363 | the reference group of a directory holds only files in that directory |
| Panel.GroupedRules | ui/town/panel.js:358-363 | a directory has a group exactly when some file lies in it, and the group lists that directory's files in their original order |
| Panel.Grouped | ui/town/panel.js:358-363 | the files grouped by directory, each group in file order (`GroupedRules`) |
| Panel.OpenDeskBrowser | ui/town/panel.js:353-375 | the placeholder is shown exactly when there are no files; the grouping throws exactly when some file's directory is an inherited object member name, at the first such file; otherwise the view holds the grouping |

## Left out

- Rendering has no model. This covers the SVG markup of buildings, tiles and decorations, the lit-html templates, the THREE.js scene with its model loading and ray casting, the canvas drawing of the editor and the board, and the DOM of the panels. The models keep only the state those renderers read.
- The random ambient forest and decorations that `parseMap` scatters around the village (ui/js/village.js:133-259) are not modelled. They are drawn only and feed no logic.
- Transport and I/O are not modelled: the event-stream wiring, the reconnect timer and watchdog, every `fetch`, launch control, and the wall post form and file reader panel. The handlers they call are modelled with the decoded event as a parameter.
- `JSON.parse` and `parseContentJson` (ui/town/panel.js:54-63) are not modelled. A conversation enters the artifact list already parsed into blocks.
- `Math.random()` draws are parameters in [0, 1): the goose's wander, pen and board offsets and its initial timer. The village's random render offsets are left out because only drawing reads them.
- Clocks are parameters: `Date.now()`, `performance.now()` and the animation frame timestamps.
- The square root `Math.sqrt(dx * dx + dy * dy)` in the village step (ui/js/village.js:305) is a parameter `norm`, required to be the Euclidean length (its square is `dx * dx + dy * dy` and it is never negative). The straight-line distances in the 3-D goose are parameters too. A 3-D goose's position is its remaining distance to its target, and the caller supplies the distance to each newly chosen target.
- Village.StepGoose: coordinates are real numbers, not floating point, so rounding in the source's arithmetic is not modelled.
- Village.StepGoose: when a step's segment has zero length, the source divides by zero and writes NaN coordinates. The model keeps the position and changes only the action.
- Village.FrameSpeed: a timestamp earlier than the last frame gives a negative `dt`, which the source does not clamp from below. The model bounds the speed only from above in that case, as the source does.
- The sin/cos ring placement of town geese (ui/town/town.js:377-380) is a parameter giving the home point for the goose index and the ring size.
- Colour tinting by status, the error shake (ui/town/goose.js:171-197, 315-317), the facing direction and the idle animations of the goose mesh are not modelled.
- Goose3D.Goose.Update: positions are abstracted to the remaining distance, so the contract says nothing about the coordinates the mesh passes through.
- `leavePen` (ui/town/town.js:415) is called but no goose defines it. The call throws into the event handler's `try`, and Town3D.TownScene.OnWall models exactly that: the throw is reported and the rest of the handler is skipped.
- The desk notes, `carryNote` and `goDeliverNote` (ui/town/town.js:304-305) are not modelled; the two goose methods are undefined as well. `refreshMessages` after a tree is also left out, because it only re-fetches.
- `toFixed` is not modelled. Panel.FormatTokens returns the scaled value that is printed, not its decimal text.
- Panel.FormatElapsed takes whole seconds, and Panel.ElapsedRoundTrip is proved for non-negative whole seconds only. The source also accepts fractional seconds, which it floors.
- The order of `Object.entries(groups).sort()` in the desk browser is not modelled. Panel.OpenDeskBrowser returns the groups as a map, with each group's files in their original order.
- Text.ToLower: lower-cases only the ASCII capitals A-Z. JavaScript's `toLowerCase` also maps other capitals, some to a different character count (U+0130 becomes two code units) and U+212A, the Kelvin sign, to `k`, so a role pattern could match a non-ASCII name in the source that it does not match in the model.
- String lengths count characters, not UTF-16 code units. The only length-based cuts (120 and 2000 characters) behave alike on text without astral characters.
- Town3D.TownScene.OnTree: the contract composes keys, pens and statuses over the whole tree. The rest of a goose's state (home, counters, walk) is stated one child at a time by Town3D.TownScene.OnChild, not composed over a tree that names a key twice.
- Village.VillageState.ReconcileAll: the per-goose contract covers delegates whose id is listed once. For an id listed twice, the contract states only that its goose exists afterwards, because the second pass reconciles the goose the first pass left.
- Village.VillageState.UpdateVillageState: the same limit as `ReconcileAll` for ids listed twice.
- Loops over the keys of a JavaScript `Map` visit the keys in an unspecified order in the model, not insertion order. Each goose's step is independent of the others, so the result does not depend on it.
- The panel's overview and conversation tabs, tab switching and the "send to wall" button are not modelled. They only format fields for display, and their one shared helper with the artifact list (`escapeHtml`) is modelled.
- The editor's mouse handling (`isDrawing` across mousedown and mouseup) is left out; each painted cell is one Editor.MapEditor.PaintAt call. The `getScreenCTM` conversion from screen to map coordinates and its `null` case are not modelled, so PaintAt takes map coordinates.
- The app's timers are not modelled: the re-render 8.1 s after a wall message (ui/js/app.js:141) and the 5 s check that re-renders a stale feed (ui/js/app.js:224-227). Its other event handlers only copy a field into the store and are not modelled either. Scrolling the feed, the focus trap, the workshop drawer and `parseMessages` are also left out; a page of delegate messages enters the model already parsed.
- `state.js`, the client's shared store, is not part of this model. App.ClientState.constructor states the initial store fields this model assumes, and the store's subscription mechanism is left out.
