# Space invaders game logic in Dafny

This project models the game-logic layer of a small browser arcade game. A
player avatar moves left and right along the bottom of the screen. Above it,
a formation of "descenders" sweeps sideways. Whenever any descender touches a
side wall, the whole formation reverses and drops one row. Floor contact ends
the game.

Every screen node is abstracted as an `Entity` record (`left`, `top`,
`width`, `height`, whole pixels). Every containing node is a `Container`
(`width`, `height`; its left and top edges are 0). The shared game record is
`Game(paused, over, status)`. Each operation is a pure function from the old
record to the new one. The `setTimeout` re-arm of the descent loop becomes a
returned `Schedule`: either `Halt` or `Wait(ms)`.

Modules, following `index.js`:

- `Geometry`: `Container`, `Entity` and the derived `Box` read by `get_box`.
- `GameState`: the `Game` class. It covers the escape-key pause toggle and
  `win`, `lose` and `end`.
- `Movers`: the `Mover` class. It covers the pause-gated `move_x`/`move_y`
  steps and the wall predicates `HitsParentLeft` (`left <= 0`) and
  `HitsParentRight` (`right >= parent.width`).
- `PlayerControl`: the `Player` class. It covers centred placement and the
  left/right lock state machine.
- `Descenders`: the `Descenders` and `Descender` classes. It covers the
  floor predicate `HitsParentFloor` (`bottom >= parent.height`), the layout,
  the tick `MoveAll` and the timer loop `Run`. `MoveAll` is the declarative
  "move all, then check all" reading. `MoveAllLoop` is the source's own
  loops, which check each descender right after its own step. Both are
  proved to agree.

Quirks of the source that the model keeps:

- The layout loop starts at row 5 of 5. Only 10 descenders are placed, but
  the win rule compares the count with 50. Win is therefore unreachable
  (`Descenders.WinUnreachable`, `Descenders.LayoutSizeNeverWins`).
- Pausing only suppresses steps. Ticks keep running and evaluate the walls
  and the floor against frozen positions
  (`Descenders.PausedTickFreezesPositions`).
- The player is not confined to the arena. A right press while paused clears
  the left lock without moving the avatar, so the avatar can be walked past
  the left wall indefinitely (`PlayerControl.PausedEscapeUnbounded`).
- The tick that resolves the game still re-arms the timer. The next tick then
  sees `over` and stops.

Other behaviour of `index.js` that the model states as written:

- The next delay is `(count - 1) * 2 + 6` with no lower bound; a count of 0 would give 4 ms (index.js:330).
- A right press that lands on the right wall sets the right lock (index.js:217-220).
- The descent loop stops on the `over` flag (index.js:271), which only `end` sets.
- An empty formation is accepted: every tick then finds no wall and re-arms the timer.

## Model

| member | source | states |
|---|---|---|
| Geometry.GetBox | index.js:449-458 | the box reports the entity's own position and size; its right edge is left plus width and its bottom is top plus height |
| GameState.NewGame | index.js:18-29 | a new game is unpaused, not over and still playing (`over` starts undefined, read as false) |
| GameState.Pause | index.js:31-43 | `paused` flips exactly when the key code is 27; `over` and the status are untouched |
| GameState.PauseTwiceRestores | index.js:36-42 | two escape presses restore the original record |
| GameState.PauseIgnoresOtherKeys | index.js:36 | any key other than escape leaves the record unchanged |
| GameState.Win | index.js:45-48 | the status becomes won and nothing else changes |
| GameState.Lose | index.js:50-53 | the status becomes lost and nothing else changes |
| GameState.End | index.js:55-62 | the game becomes over and paused, keeping the outcome already set |
| GameState.EndIdempotent | index.js:55-62 | ending an ended game changes nothing |
| Movers.MoveX | index.js:99-105 | unpaused, both vertical box edges shift by `distance * vector`; paused, the entity is unchanged; top and size never change |
| Movers.MoveY | index.js:107-113 | unpaused, both horizontal box edges shift by `distance * vector`; paused, the entity is unchanged; left and size never change |
| Movers.MoveXInverse | index.js:99-105 | a horizontal step in the opposite direction undoes a step |
| Movers.MoveYInverse | index.js:107-113 | a vertical step in the opposite direction undoes a step |
| Movers.WallsAfterStep | index.js:115-143 | after a step, the left and right wall predicates hold exactly when the landing position is at or past the arena's left or right edge (the old position while paused) |
| PlayerControl.PlaceCenter | index.js:182-187 | the avatar has equal margins left and right and its bottom edge rests on the arena's bottom |
| PlayerControl.NewPlayer | index.js:156-163 | a new player is centred with neither direction locked |
| PlayerControl.MoveLeft | index.js:189-207 | the right lock is always cleared; if the left lock was set, the position is kept and stays locked; otherwise the avatar takes a left step and the left lock is set exactly when the new box touches the left wall |
| PlayerControl.MoveRight | index.js:209-228 | mirror image of `MoveLeft` with the right lock and the right wall |
| PlayerControl.LeftThenRightRoundTrip | index.js:189-228 | unpaused and not left-locked, a left press then a right press return the avatar to where it was |
| PlayerControl.RightThenLeftRoundTrip | index.js:189-228 | unpaused and not right-locked, a right press then a left press return the avatar to where it was |
| PlayerControl.LeftLockAndRelease | index.js:189-228 | while left-locked, a left press changes only the right lock; a following right press clears the left lock and, unpaused, moves the avatar one step right |
| PlayerControl.LockedStaysPut | index.js:192-201 | any number of left presses against a set left lock leave the avatar in place and locked |
| PlayerControl.WalkToLeftWall | index.js:164-207 | holding left long enough from inside the arena locks the avatar at the left wall, at most one step past it, and exactly on it when the step divides its distance to the wall |
| PlayerControl.PausedEscapeUnbounded | index.js:203-205 | repeating "pause, press right, unpause, press left" moves the avatar one full step left each round, without bound |
| Descenders.FloorAfterDrop | index.js:405-420 | after a drop, the floor predicate holds exactly when the landing position (the old one while paused) has its bottom edge at or below the arena's height |
| Descenders.PlaceAll | index.js:336-373 | the layout has 10 descenders, all with top 200 and the given size; neighbours are exactly 50 px apart; the row has equal margins to both arena walls |
| Descenders.Start | index.js:240-260 | the formation moves in the given arena, starts moving left, is configured for 50 descenders, uses the layout, and first wakes after 1000 ms |
| Descenders.NextWaitScaling | index.js:326-330 | the delay is 6 ms for one descender, strictly increasing in the count, 2 ms per extra descender |
| Descenders.SweepX | index.js:277-292 | the horizontal pass keeps every descender's top and size and moves its left edge by `2 * vector`, or not at all while paused |
| Descenders.DropY | index.js:301-310 | the downward pass keeps every descender's left edge and size and moves its top down by 10 px, or not at all while paused |
| Descenders.Resolve | index.js:312-323 | floor contact leaves the game over and paused, won exactly when the count equals the starting count, lost otherwise |
| Descenders.MoveAll | index.js:263-334 | a tick keeps the arena, the starting count and the number of descenders; it re-arms the timer exactly when the game was not over, with the count-based delay |
| Descenders.MoveAllLoop | index.js:263-334 | the source's loops, with each wall check right after that descender's own step, give the same tick as the move-all-then-check-all reading |
| Descenders.StoppedGameIsFrozen | index.js:271 | a tick of an over game changes no position, direction or status and does not re-arm the timer |
| Descenders.RunningTickSweep | index.js:277-305 | in a running tick, every descender moves sideways by `xVector * 2`; the direction is negated exactly when some descender then touches a side wall, and exactly then every descender also drops 10 px |
| Descenders.PausedTickFreezesPositions | index.js:263-310 | a paused tick moves nobody but still reverses direction when a frozen descender touches a side wall, and still ends the game when a frozen descender also touches the floor; otherwise the game record is untouched |
| Descenders.FloorResolution | index.js:299-323 | a running tick ends the game exactly when a wall was hit and a dropped descender touches the floor; then the game is over, paused, and won exactly when the count equals the starting count; otherwise the record is untouched |
| Descenders.TickIsRigid | index.js:277-310 | a tick preserves the horizontal and vertical offset between any two descenders |
| Descenders.RunNeverWins | index.js:313-320 | with a descender count different from the starting count, no number of ticks ever produces a win |
| Descenders.WinUnreachable | index.js:340-348 | a game started from the layout is never won, however long the timer runs |
| Descenders.LayoutSizeNeverWins | index.js:340-348 | a formation of the layout's 10 descenders configured for 50 is never won, in any arena and however long the timer runs |
| Descenders.OverIsFinal | index.js:271 | once the game is over, running the timer loop leaves game and formation unchanged |
| Descenders.DirectionStaysUnit | index.js:249-297 | the shared direction stays -1 or 1 for as long as the timer runs |

## Left out

- DOM creation and event wiring are left out. This covers `document.createElement`, `querySelector`, `appendChild`, the `keydown` listeners and the arrow-key dispatch to `move_left`/`move_right`. Directional input is modelled as direct calls to `MoveLeft`/`MoveRight`, and the pause key as a `Pause` call with a key code.
- Container construction from a DOM node is left out. Its width and height are parameters, and `half_width` appears only inside the centring formulas.
- `setTimeout` is left out. Each tick returns its re-arm delay (`Schedule`), `Start` returns the initial 1000 ms, and `Run` plays the role of the timer.
- Rendering side effects are left out: the outcome text, `style.display`, CSS class names and the descender `type` choice. Every placed descender is in row 5 and so is of one type, which is why a single width and height stands for all of them.
- The collision helper `have_collided` is left out. It is an unfinished stub that returns nothing.
- The unused fields `hit_floor`, `Game.descenders` and `Game.player` are left out.
- PlayerControl.PlaceCenter: requires `parent.width - width` to be even, so that the centring gives a whole pixel. The browser's rounding of half-pixel offsets is not modelled.
- PlayerControl.NewPlayer: carries the same evenness requirement as `PlaceCenter`.
- Descenders.PlaceAll: requires `parent.width - width` to be even, so that the row and column centring gives whole pixels. The browser's rounding of half-pixel offsets is not modelled.
- Descenders.Start: carries the same evenness requirement as `PlaceAll`.
- Descenders.WinUnreachable: carries `Start`'s evenness requirement; `Descenders.LayoutSizeNeverWins` states the same fact for every arena.
- The player's position is not bounded: the source does not keep it inside the arena, and the model proves the opposite (`PlayerControl.PausedEscapeUnbounded`).
