# Ring Leader game core in Dafny

This project models the frame-by-frame game logic of `ring_leader.py`, the main
module of the Ring Leader arcade game, and proves properties of it. The game
keeps a grid of coloured "kill bubbles" that creeps down the screen. The
player's bullets stick to the grid. A run of same-coloured bubbles is erased
and pays a combo bonus. Bubbles cut loose fall as "droppers", which pay points,
grow the ship or land back on the grid.

The Python module keeps its state in globals and updates it in place. Here
those globals are the fields of the class `Game.Game`, and every procedure is a
method whose `modifies` clause names exactly the fields it writes:

- `update_bullets` is `UpdateBullets`.
- `update_droppers` is `UpdateDroppers`.
- `falling_bubble_lands` is `FallingBubbleLands`.
- `update_kill_bubbles` is `UpdateKillBubbles`.
- `delete_bubble_matches` is `DeleteBubbleMatches`.
- `rec_erase` is `RecErase`.
- The counter updates of `next_level` are `NextLevel`.
- `initalize_game` is the constructor.

Each method is proved against a specification function in its own module, and
the properties the game promises are proved about those functions:

- `Flood`: the region `rec_erase` clears and the two combo counts. The Python
  recursion is replaced by an explicit stack, whose result is proved equal to
  the order-free same-colour region of the seed.
- `Matches`: `delete_bubble_matches` as a fold over the match list.
- `Scoring`: the clamped combo bonus, the clamped bullet penalty and the level
  thresholds.
- `Landing`: the column scan of `falling_bubble_lands`.
- `Bullets` and `Droppers`: the two list sweeps, as a fold that gives each
  element one fate.
- `GridTick`: the row lifecycle and the scroll.
- `Cells` and `Settings`: the grid and the constants.
- `Sweeps`: counting and selecting over fates.

The modules `bubble.py`, `ship.py` and `alerts.py` are not part of this model.
What the core asks of them becomes a function-typed parameter:

- the bullet's motion, the off-screen test and the grid collision;
- the ship-hit test;
- the match finder;
- the loose-bubble detection.

Their constants (board width, bubble diameter and padding, bullet penalty,
falling-bubble reward, gravity) are the fields of a `Config` value. The one
exception is `Bubble_Grid.MATCH_LENGTH`, which the model fixes at 4 (see
"## Left out").

The combo clamp works exactly as written. The bonus is `min(2 ** bubbles,
next_level_points - score)`, so a combo made while the score is already past the
threshold lowers the score to the threshold. `Scoring.ComboScore` states this
case too: the result lies between `score` and `next`, whichever order they come in.

## Model

| member | source | states |
|---|---|---|
| Flood.Erase | ring_leader.py:291-312 | rec_erase on a grid value. From an empty cell nothing changes. Otherwise exactly the cells connected to the seed through same-coloured neighbours lose their colour, and every other cell is unchanged. The two counts are the erased cells a bullet made and those the grid spawned, and together they are the size of the erased set. |
| Flood.Fill | ring_leader.py:306-312 | The traversal ends with the seed erased, only region cells erased, and the erased set closed under same-colour neighbour steps. The grid is emptied exactly there, and the counts match the bullet flags of the erased cells. |
| Flood.Visit | ring_leader.py:294-312 | One body of rec_erase, as one stack pop, keeps the traversal invariant. The invariant says the erased cells are emptied, the pending cells lie in the region, and every same-coloured neighbour of an erased cell is erased or pending. Each pop either erases a new cell or shrinks the stack. |
| Flood.ClearCells | ring_leader.py:304 | Cell by cell, the cells in the set lose their colour (`color = None`) and all others are unchanged; the grid keeps its shape. |
| Flood.ClearRow | ring_leader.py:304 | The same for one row: same length, and exactly the listed cells of that row are emptied. |
| Flood.SameColourNeighbours | ring_leader.py:306-311 | A position is pushed exactly when it is one of the four neighbours, lies in the grid and has the erase colour. |
| Flood.SameColour | ring_leader.py:307-311 | Filtering the neighbour list keeps exactly the in-grid, same-coloured positions. |
| Flood.EraseIsMaximal | ring_leader.py:306-312 | After the erase, no cell next to an erased cell still has the seed's colour. |
| Flood.EraseEmptyCell | ring_leader.py:294-297 | Erasing from a cell without colour changes nothing and counts nothing. |
| Flood.RegionIsOneColour | ring_leader.py:309-312 | Every cell the erase reaches has the seed's colour. |
| Flood.RegionStep | ring_leader.py:306-312 | A same-coloured neighbour of a reached cell is reached too. |
| Flood.ClosedHoldsRegion | ring_leader.py:306-312 | Any set that holds the seed and is closed under same-colour steps holds the whole region. This is why the stack traversal erases all of it. |
| Flood.SeedInRegion | ring_leader.py:294-304 | The seed itself is always erased when it has a colour. |
| Flood.CountsPartition | ring_leader.py:299-302 | Each erased cell increments exactly one of combo_bullets and combo_bubbles. |
| Flood.CountStep | ring_leader.py:299-302 | Erasing one more cell increments the counter its bullet flag selects, and only that one. |
| Flood.EraseKeepsTraversal | ring_leader.py:299-312 | Erasing a popped cell of the erase colour keeps the traversal invariant, counting the cell by its flag. |
| Game.Game.RecErase | ring_leader.py:291-312 | The grid becomes EraseResult of the seed, and combo_bullets and combo_bubbles grow by the two counts of the erased cells. The class invariant is kept. |
| Scoring.ComboScore | ring_leader.py:281-286 | No bonus unless both counters are non-zero. Otherwise the score is `min(score + 2 ** bubbles, next)`. Starting at or below `next`, the score never drops and never passes `next`. |
| Scoring.Pow2 | ring_leader.py:282 | 2 ** n is at least 1, and at least 2 for n > 0. |
| Game.Game.EraseMatch | ring_leader.py:277-289 | One loop turn resets both counters, erases from the seed and pays the clamped bonus. The new state is exactly Matches.SeedStep of the old one. |
| Matches.SeedStep | ring_leader.py:277-289 | One loop turn leaves a grid of the same shape. |
| Matches.DeleteMatches | ring_leader.py:269-289 | On an empty grid nothing happens. Otherwise the pass keeps the grid's shape and leaves the score between its start and the threshold. A score at or below the threshold never drops and never passes it. |
| Matches.MatchPass | ring_leader.py:277-289 | The whole loop leaves a grid of the same shape. |
| Matches.MatchPassSnoc | ring_leader.py:277-289 | Handling one more seed is exactly one more loop turn on the state the earlier seeds left. |
| Matches.MatchPassScore | ring_leader.py:283-286 | Across the whole loop, a score at or below the threshold never drops and never passes it. In general the score ends between its start and the threshold. |
| Matches.MatchPassOnlyClears | ring_leader.py:277-289 | The loop only empties cells. Every cell ends unchanged or with its colour removed, keeping position and bullet flag. |
| Matches.MatchPassEmptiesSeeds | ring_leader.py:277-280 | After the loop, every seed the match finder reported is an empty cell. |
| Game.Game.DeleteBubbleMatches | ring_leader.py:269-289 | The new grid, score and counters are exactly DeleteMatches of the old state and the matches found in the old grid. On an empty grid nothing changes. The class invariant is kept. |
| Landing.Stops | ring_leader.py:263-264 | Row i stops the faller exactly when its cell in the faller's column has a colour and lies within `reach` of the faller's height. |
| Landing.FirstStop | ring_leader.py:262-264 | Returns the lowest row at or after `from` whose cell in the column is occupied and within reach, and no earlier row stops. None exactly when no row stops. |
| Landing.LandingOf | ring_leader.py:259-267 | The outcome is one of three. "Missed" exactly when no row stops. "LandsAt(i+1)" when row i is the first to stop and is not the top row. "PastTopRow" (the IndexError) exactly when the first stopping row is the top row. |
| Landing.Land | ring_leader.py:265 | Only a landing writes. It writes only the colour of the cell in row i+1 of the faller's column, every other cell is unchanged, and otherwise the grid is unchanged. |
| Game.Game.FallingBubbleLands | ring_leader.py:259-267 | `landed` is true exactly when the scan lands. `crashed` is true exactly when it stops at the top row. The grid becomes Land of the old grid. |
| Bullets.BulletSweep | ring_leader.py:163-185 | The sweep leaves a grid of the same shape when every collision does. |
| Bullets.BulletStep | ring_leader.py:168-185 | One loop turn records the bullet's fate. Only that fate's branch has an effect: a lost bullet pays the clamped penalty, a struck bullet gives the grid the collision returned, and a flying bullet is kept, moved. |
| Bullets.FateOf | ring_leader.py:172-185 | The moved bullet is lost exactly when it is off screen. It has struck exactly when it is on screen and the collision test settles it. It flies on exactly when neither holds. |
| Bullets.BulletSweepFates | ring_leader.py:167-185 | The sweep records one fate per bullet. Fate k is bullet k's fate, judged against the grid the bullets before it left. |
| Bullets.BulletSweepSnoc | ring_leader.py:167-185 | One more bullet is one more loop turn. |
| Bullets.BulletSweepKeeps | ring_leader.py:167-185 | Every bullet gets exactly one fate, in list order. The list keeps exactly the moved bullets whose fate is Flying, in their original order. |
| Bullets.BulletSweepScore | ring_leader.py:172-178 | The score is the old score after one clamped penalty per lost bullet. |
| Bullets.BulletSweepAccounts | ring_leader.py:167-185 | The bullets kept, lost and struck add up to the bullets there were. |
| Bullets.FatesPartition | ring_leader.py:171-185 | Every fate is one of lost, struck and flying. |
| Bullets.BulletScoreBounds | ring_leader.py:175-177 | The score is never negative after the sweep. With a non-positive penalty it is `max(0, score + lost * penalty)`. |
| Scoring.Penalize | ring_leader.py:175-177 | One lost bullet adds the penalty. If that leaves the score negative, the score becomes exactly 0. Either way the score is at least 0 and at least score + penalty. |
| Scoring.Penalized | ring_leader.py:175-177 | After one or more penalties the score is never negative. |
| Scoring.PenaltiesClosedForm | ring_leader.py:175-177 | Clamping after every penalty equals clamping once at the end when the penalty is a cost. |
| Game.Game.UpdateBullets | ring_leader.py:163-185 | The grid, score and bullet list are exactly BulletSweep of the old state and old list. The class invariant, with the score at least 0, is kept. |
| Game.Game.BulletTurn | ring_leader.py:167-185 | One loop turn on a list that is the kept prefix followed by the rest. The current bullet is deleted or kept in place, matching BulletStep. |
| Droppers.Advance | ring_leader.py:252-254 | y moves by the old speed times dt, then the speed grows by gravity times dt. Nothing else changes. |
| Droppers.AdvanceAll | ring_leader.py:252-254 | Advancing a list keeps its length, and element k is dropper k advanced by one time step. |
| Droppers.AdvanceAllSnoc | ring_leader.py:252-254 | Advancing distributes over appending one dropper. |
| Droppers.Record | ring_leader.py:238-255 | A branch's effect leaves a grid of the same shape. |
| Droppers.JudgeCases | ring_leader.py:237-250 | The branch taken, in the source's order. FellOff exactly when the bubble is below the screen. StruckShip exactly when it is on screen and hits the ship. Otherwise the landing test decides: Landed, Falling, or no fate (the IndexError). |
| Droppers.DropStepJudged | ring_leader.py:236-255 | Proof step, not a property of the game: before any crash, the turn of a dropper whose `Judge` outcome is known equals that outcome's effect (the crash for no outcome, otherwise its `Record`). The loop's step method uses it to take the branch without unfolding `DropStep`. |
| Droppers.DropStep | ring_leader.py:236-255 | One turn leaves a grid of the same shape. |
| Droppers.DropStepTally | ring_leader.py:236-255 | One turn records at most one fate. It adds the reward only for FellOff and HIT_GROW only for StruckShip. It keeps the dropper, advanced, only for Falling. After a crash it records nothing. |
| Droppers.DropSweep | ring_leader.py:232-255 | The sweep leaves a grid of the same shape. |
| Droppers.DropSweepSnoc | ring_leader.py:236-255 | One more dropper is one more loop turn, and its column is a column of the grid so far. |
| Droppers.CrashedStep | ring_leader.py:249 | After the IndexError, one more dropper only joins the untouched ones. |
| Droppers.DropSweepCrashed | ring_leader.py:249 | Once the landing test has crashed, all remaining droppers stay untouched, in order. |
| Droppers.DropSweepSplits | ring_leader.py:236-255 | The droppers split into those handled, each with exactly one fate, followed by those a crash left untouched. A crash happened exactly when some are untouched. |
| Droppers.DropSweepKeeps | ring_leader.py:252-255 | The list keeps exactly the advanced droppers whose fate is Falling, in their original order. |
| Droppers.DropSweepScore | ring_leader.py:238-239 | The score grows by FALLING_BUBBLE_POINTS once per dropper that fell off. |
| Droppers.DropSweepGrowth | ring_leader.py:245-247 | The ship's final radius grows by HIT_GROW once per dropper that struck it. |
| Droppers.DropSweepColumns | ring_leader.py:252-255 | The kept and untouched droppers all stay in the board's columns. |
| Droppers.DropSweepFits | ring_leader.py:232-255 | The grid stays rectangular, the score never drops, and the droppers left all fit the board. |
| Droppers.DropSweepEnds | ring_leader.py:236 | A loop stopped by a crash or by the end of the list has done the whole sweep. The list holds the kept droppers followed by the untouched ones. |
| Droppers.DropSweepOnlyPaints | ring_leader.py:265 | The sweep changes only colours in the grid, and any changed cell took the colour of one of the droppers. |
| Game.Game.UpdateDroppers | ring_leader.py:232-255 | The grid, score, ship radius and dropper list are exactly DropSweep of the old state. `crashed` reports the IndexError. The class invariant is kept. |
| Game.Game.DropNext | ring_leader.py:236-255 | Turn k of the loop takes the state of the sweep over the first k droppers to the state over the first k + 1. |
| Game.Game.Settle | ring_leader.py:250-255 | The list edit after a branch. A falling bubble is replaced in place by its advanced self and the cursor moves past it. Any other fate deletes the bubble at the cursor. |
| Game.Game.DropTurn | ring_leader.py:236-255 | One loop turn on a list that is the kept prefix followed by the rest. The current dropper is deleted, advanced in place, or left with the rest on a crash, matching DropStep. |
| Game.Game.DropOne | ring_leader.py:238-255 | The branch taken is Judge of the old grid. The grid changes only by a landing, the score only by FellOff, and the radius only by StruckShip. |
| GridTick.RetiresBottom | ring_leader.py:198 | The bottom row is retired exactly when the grid is not empty and its first cell is below HEIGHT + BUBBLE_DIAMETER // 2. |
| GridTick.NeedsTopRow | ring_leader.py:202-204 | A top row is added exactly when the grid is empty or its top row has reached BUBBLE_DIAMETER // 2 + BUBBLE_PADDING. |
| GridTick.CycleRows | ring_leader.py:198-209 | The bottom row is removed exactly when its y passes the retire line. The new row is added on top exactly when the grid is empty or the top row reached the spawn line. Every row stays board-wide. speed_rows never goes below 0 and drops by one exactly when a row is added while it is positive. |
| GridTick.TickDelta | ring_leader.py:211-213 | The delta is velocity * dt, times 16 while fast rows remain. |
| GridTick.ShiftRow | ring_leader.py:214-220 | Each cell of the row moves down by dy, with everything else kept. |
| GridTick.Shifted | ring_leader.py:214-220 | Every cell moves down by dy and keeps its x, colour and bullet flag, in a grid of the same shape. |
| GridTick.ShiftRows | ring_leader.py:214-220 | The nested loop gives Shifted of the grid. `hit` is true exactly when some occupied cell touched the ship before moving. |
| Game.Game.CycleGridRows | ring_leader.py:198-209 | The grid and speed_rows become CycleRows of the old ones. |
| Game.Game.ScrollGrid | ring_leader.py:211-220 | The grid becomes Shifted by the frame's delta. game_state becomes 0 exactly when a colour cell struck the ship, and is otherwise unchanged. |
| Game.Game.AdvanceGrid | ring_leader.py:198-220 | The row cycle, then the ship-hit test on the cycled grid before any cell moves, and the scroll, composed. |
| Game.Game.DropLooseBubbles | ring_leader.py:224 | The grid becomes the loosened grid, and the cut-off bubbles are appended to the droppers. |
| Game.Game.ClearGrid | ring_leader.py:222-224 | delete_bubble_matches and then drop_loose_bubbles, composed. |
| Game.Game.UpdateKillBubbles | ring_leader.py:195-224 | The state after the frame is the composition: row cycle, scroll with hit test, delete_bubble_matches on the scrolled grid, then the loose bubbles appended to the droppers. The class invariant is kept. |
| Scoring.Threshold | ring_leader.py:354 | Every threshold is at least 500. |
| Scoring.ThresholdClosedForm | ring_leader.py:354 | The threshold at level n is 250 + 125 n (n + 1). |
| Scoring.ThresholdIncreasing | ring_leader.py:354 | Each level needs more points than the one before. |
| Game.Game.NextLevel | ring_leader.py:345-367 | Droppers and bullets are cleared and the hull is reset. The level goes up by one and speed_rows goes back to 4. next_level_points grows by 250 times the new level. A new grid and velocity are installed. The class invariant is kept. |
| Game.Game.constructor | ring_leader.py:66-92 | A new game has score 0, game_state 1, level 1, 500 points to reach, 4 fast rows, no bullets or droppers, and the combo counters at 0. |

## Left out

- Drawing (`draw`, `draw_cross_hair`), score alerts, level messages, the clock and `clear_new_level_msg` produce no game state the core reads, so they are not modelled.
- The input handlers `on_mouse_move`, `on_mouse_down` and `on_key_down`, and `get_angle`, are not modelled. `get_angle` is floating-point `atan2`.
- The dispatcher `update` is not modelled. Its test `score >= next_level_points`, which triggers `next_level`, is left to the caller of `NextLevel`.
- `bubble.py`, `ship.py` and `alerts.py` are not part of this model. Each collaborator is a parameter:
  - `Bullet.move` and `is_off_screen` are `move` and `offScreen`;
  - `bullet_collide` is `collide`, which gives the grid after a strike;
  - `hit_ship` is `hitShip`;
  - `get_matches` is `getMatches`;
  - `addTopRow` is the `newRow` argument;
  - `drop_loose_bubbles` is `dropLoose`;
  - `reset_hull_size` is the `hullRadius` argument;
  - the new `Bubble_Grid` of a level is the `freshGrid` argument.
- Assumptions on those collaborators:
  - `collide` keeps the grid's shape;
  - the match finder reports only cells of the grid;
  - `drop_loose_bubbles` keeps the grid board-wide and gives droppers in its columns;
  - `Config.Valid` holds: `BOARD_WIDTH` is at least 1 (the screen width of ring_leader.py:16-17 and the grid tick both take a row to have a cell), and `FALLING_BUBBLE_POINTS` is not negative (the reward added at ring_leader.py:239). The score-is-never-negative invariant and `DropSweepFits` rely on the second.
- The hit test uses the ship as it was at the start of a sweep. A growing `ship.final_radius` does not change later hit tests in the same loop.
- Velocity is an integer. The `* 1.1` speed-up of `next_level` is not modelled: the new velocity is a parameter, and floating-point positions are not modelled.
- `level_colors`, the colour lists and `ship.set_colors` are not modelled, because they only choose colours.
- The frame's time step `delta[0]` is the parameter `dt`.
- `rec_erase` bounds columns by `BOARD_WIDTH`, and the model bounds them by the row's length. The two agree because the class invariant keeps every row `BOARD_WIDTH` wide.
- `falling_bubble_lands` indexes `row[j]` without a check. The model keeps every dropper's column inside the board, so that negative or too-large column cannot arise.
- The IndexError that `falling_bubble_lands` raises at the top row is reported as `crashed`. That dropper and the later ones stay in the list untouched. The unwinding of the Python program after the exception is not modelled.
- `Settings.MATCH_LENGTH`: `Bubble_Grid.MATCH_LENGTH` lives in `bubble.py`, which is not part of this model. The model fixes it at 4, the run length the game's instructions give (ring_leader.py:40-41). It only sets `speed_rows` at ring_leader.py:92 and :353, so the constructor and `NextLevel` speak of 4 fast rows.
- The combo counters are `None` only in the first game (ring_leader.py:103-104). `initalize_game` does not reset them, so a restart keeps the last values. The model's constructor sets them to 0, which matches the first game only. The difference cannot be observed, because ring_leader.py:278-279 set both counters to 0 before every erase that reads them.
- `UpdateBullets` and `UpdateDroppers` build the new list in a local variable and store it at the end. Python deletes from the global list as it goes, so aliasing of that list is not modelled.
