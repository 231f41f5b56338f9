# Snake game simulation, modelled in Dafny

This project models the game logic of the `SnakeGame` React component: a snake
on a 30 × 30 toroidal grid that moves one cell per tick, grows by eating food
(+10 points per food), dies on self-collision, and can pick up timed power-ups
(SPEED halves the tick interval, MAGNET pulls the food, SHIELD suppresses
self-collision). The component keeps its state in React state holders. Here
that state is one explicit `GameState` value (module `Engine`). The same state
also lives in a `Game` class whose fields are those state holders (module
`SnakeGame`).

Layout, leaves first:

- `wrappers.dfy` (`Wrappers`): `Option`, for the board power-up and the active effect, which may be absent.
- `grid.dfy` (`Grid`): positions, directions, JavaScript's truncating `%` (`Rem`) and the wrapped head move (`NextHead`). It also holds an independent edge-by-edge reference move (`StepOnTorus`) and the lemmas linking the two.
- `powerups.dfy` (`PowerUps`): power-up kinds, the board item, the active effect, activation, speed change, the expiry test and the magnet nudge (`Nudge`).
- `spawner.dfy` (`Spawner`): rejection sampling for food and power-ups. The do-while loops are the methods `GenerateFood` and `GeneratePowerUp`. Each is proved equal to the function `Sample` / `NewPowerUp`. The contract of `Sample` says that the result avoids the occupied cells and is the first draw that does; `NewPowerUp` places its item on that cell.
- `engine.dfy` (`Engine`): `GameState` and its invariant, plus one function per transition: `Step` (a tick), `PressKey`, `Expire`, `Spawn` and `Reset`. The lemmas state the game's properties over these functions.
- `game.dfy` (`SnakeGame`): the class `Game`. Each method performs the component's setter calls in source order. For the handlers `Tick`, `KeyPress`, `CheckExpiry`, `MaybeSpawn` and `Reset`, the contract is `Valid()` plus `State() == <Engine transition>(old(State()))`. The two helpers they call are different: `ApplyPowerUp` is proved equal to `Engine.ApplyPowerUp` without an invariant, and `MoveFood` states only the new food.

Randomness and time are parameters:

- `draws` is the sequence of candidate cells the sampling loop would draw, each on the board.
- `coin` is the outcome of the 1% spawn test.
- `roll` (< 3) is the power-up kind index.
- `now` is the wall clock in milliseconds.

The sampling loop runs until it draws a free cell. The model therefore requires that some draw is free, but only on the paths that reach the loop.

Behaviour the model keeps exactly as the code has it:

- The collision test covers the whole old snake, tail included (`ScenarioTailCollision`).
- The magnet nudge runs only when food is eaten. It pulls the pre-tick food toward the pre-tick head. Because it writes the food after `generateFood` does, the nudged cell is what is committed (`FoodAfterEating`, `StepFood`). For a move that crosses no edge, that cell is the snake's second segment (`MagnetFoodLandsOnNeck`).
- Fresh food avoids only the pre-tick snake, so it may appear under the new head (`ScenarioFoodUnderHead`). Reset samples against the snake before the reset, so its food may land on the restarted snake (`ScenarioResetFoodOnSnake`). The initial food is not checked against the snake (`Initial`).
- A key's reversal test compares with the `direction` state, which changes at once. So two presses between ticks can reverse the snake (`TwoPressesCanReverse`).
- The effects test only whether an active effect of that kind is present, not its time. They end only when the expiry check runs. Picking up MAGNET or SHIELD while SPEED is active keeps the halved interval until that check.

Further consequences of the code that the model keeps:

- The magnet moves the food only when it is eaten, not every tick, and not before the collision test.
- The magnet pulls the old food toward the old head, not the freshly placed food toward the new head.
- An effect expires only once `now > expiresAt`; at `now == expiresAt` it is still in force.
- A single key press never reverses the direction (the contract of `PressKey`), but the direction after a tick can be the reverse of the one before it, through two presses between ticks.
- Food can lie on the snake (see above). Reset does not return fully to the initial state: it leaves the board power-up, the active effect and the speed as they were.

## Model

| member | source | states |
|---|---|---|
| Grid.Opposite | src/components/SnakeGame.tsx:166-177 | the reversal each arrow key refuses is a different direction from the current one |
| Grid.Rem | src/components/SnakeGame.tsx:198-207 | JavaScript `% GRID_SIZE`: result in [0, 30) for non-negative operands, in (-30, 0] for negative ones, and congruent to the operand modulo 30 |
| Grid.NextHead | src/components/SnakeGame.tsx:193-209 | from a cell on the board the new head is on the board and differs from the old head; UP/DOWN keep x, LEFT/RIGHT keep y |
| Grid.NextHeadIsStepOnTorus | src/components/SnakeGame.tsx:196-209 | on every board cell the modular move equals the reference move: a plain step, or re-entry at the opposite edge when the step leaves the board |
| Grid.NextHeadReversible | src/components/SnakeGame.tsx:196-209 | a move followed by the opposite move returns to the starting cell, across edges too |
| PowerUps.Activate | src/components/SnakeGame.tsx:124-129 | the new effect has the picked kind and expires exactly 5000 ms after `now` |
| PowerUps.SpeedAfterPickup | src/components/SnakeGame.tsx:113-123 | SPEED sets the interval to GAME_SPEED/2 = 50; MAGNET and SHIELD leave it unchanged |
| PowerUps.Expired | src/components/SnakeGame.tsx:147 | the expiry test: `expiresAt` is set (non-zero) and `now` is strictly past it |
| PowerUps.ActivatedEffectExpiresExactlyAfterDuration | src/components/SnakeGame.tsx:147 | an effect started at `start` counts as expired exactly when `now > start + 5000` |
| PowerUps.Toward | src/components/SnakeGame.tsx:137-140 | the per-axis step is -1, 0 or 1 and reduces the distance to the target by one unless it is already zero |
| PowerUps.Nudge | src/components/SnakeGame.tsx:133-143 | the food moves at most one cell per axis; its distance to the head on each axis drops by one or stays 0; it stays put exactly when it is on the head; on-board food and head give on-board food |
| PowerUps.NudgeNeverRecedes | src/components/SnakeGame.tsx:137-140 | the nudge never increases either per-axis distance to the head, and strictly decreases each distance that is not zero |
| Spawner.FirstFree | src/components/SnakeGame.tsx:79-84 | the index the loop stops at: a free candidate, with every earlier candidate occupied |
| Spawner.Sample | src/components/SnakeGame.tsx:77-86 | the sampled cell is the first draw that avoids every occupied cell (all earlier draws are occupied), and it is on the board when the draws are |
| Spawner.NewPowerUp | src/components/SnakeGame.tsx:89-108 | a spawned power-up avoids every snake segment and the food cell, has the rolled kind, duration 5000, and an on-board position |
| Spawner.GenerateFood | src/components/SnakeGame.tsx:77-86 | the do-while loop returns the first draw not on the snake, hence never a snake segment |
| Spawner.GeneratePowerUp | src/components/SnakeGame.tsx:89-108 | the do-while loop returns the power-up on the first draw that is neither on the snake nor on the food |
| Engine.InitialSnake | src/components/SnakeGame.tsx:62-68 | the for/push loop builds 3 segments (15, 15 + i), i.e. [(15,15),(15,16),(15,17)] |
| Engine.Initial | src/components/SnakeGame.tsx:56-74 | mount state: the starting snake, the given food unchecked against the snake, score 0, UP, running, no power-up or effect, speed 100; satisfies the invariant when the food is on the board |
| Engine.ApplyPowerUp | src/components/SnakeGame.tsx:111-130 | installs the picked effect (replacing any), sets the speed per SpeedAfterPickup, and touches nothing else |
| Engine.Collides | src/components/SnakeGame.tsx:212-213 | the collision condition: no SHIELD is active and the new head equals some segment of the old snake, tail included |
| Engine.Eats | src/components/SnakeGame.tsx:221 | the eating condition: the new head equals the food cell |
| Engine.FoodAfterEating | src/components/SnakeGame.tsx:221-225 | no contract of its own; `StepFood` states the committed food |
| Engine.Step | src/components/SnakeGame.tsx:189-237 | a tick changes the length by 0 or +1 and the score by 0 or +10, the one exactly when the other; direction and pause are untouched |
| Engine.StepPreservesInvariant | src/components/SnakeGame.tsx:192-237 | a tick keeps: length ≥ 3, every segment, food and board power-up on the board, effect expiry ≥ 5000, speed 100 or 50, speed 50 only under an effect and always under SPEED, score a multiple of 10 |
| Engine.StepIdleUnlessLive | src/components/SnakeGame.tsx:190 | no tick happens while the game is over or paused |
| Engine.StepCollision | src/components/SnakeGame.tsx:211-216 | without SHIELD, a new head on any old segment (tail included) sets game over and leaves snake, score, food, board power-up and effect unchanged |
| Engine.StepMoves | src/components/SnakeGame.tsx:218-228 | otherwise the head moves one cell in the direction; eating gives [newHead] ++ old snake and score + 10; not eating gives [newHead] ++ old snake minus its last cell, same score, same food |
| Engine.StepShieldImmunity | src/components/SnakeGame.tsx:211-213 | with SHIELD active a tick never ends the game |
| Engine.StepFood | src/components/SnakeGame.tsx:221-225 | after eating, the food is the fresh sample (off the old snake), except under MAGNET, where it is the old food nudged toward the old head |
| Engine.StepPickup | src/components/SnakeGame.tsx:230-234 | landing on the board power-up activates its kind until now + 5000 and clears the board; only SPEED sets speed 50; with no pickup, board, effect and speed are unchanged |
| Engine.Turn | src/components/SnakeGame.tsx:166-177 | the requested direction is taken exactly when it is not the reverse of the current one, else the current one stays; the result is never the reverse |
| Engine.PressKey | src/components/SnakeGame.tsx:161-182 | a key changes at most the direction or the pause flag and never sets the reverse of the current direction; arrows leave the pause flag, space and other keys leave the direction, and space in a live game flips the pause flag |
| Engine.PressKeyPreservesInvariant | src/components/SnakeGame.tsx:161-182 | key handling keeps the state invariant |
| Engine.PressKeyIgnoredWhenOver | src/components/SnakeGame.tsx:163 | every key is ignored when the game is over |
| Engine.ArrowAcceptedUnlessReverse | src/components/SnakeGame.tsx:165-177 | an arrow sets its direction iff that is not the reverse of the current one; a refused arrow changes nothing |
| Engine.SpaceTwiceRestores | src/components/SnakeGame.tsx:178-180 | space flips the pause flag, so two presses restore the state |
| Engine.TwoPressesCanReverse | src/components/SnakeGame.tsx:166-177 | heading UP, LEFT then DOWN between ticks leaves the direction DOWN, the reverse of UP |
| Engine.Expire | src/components/SnakeGame.tsx:146-151 | the check changes only speed and effect, and either clears the effect or changes nothing |
| Engine.ExpirePreservesInvariant | src/components/SnakeGame.tsx:146-151 | the expiry check keeps the state invariant |
| Engine.ExpireExactly | src/components/SnakeGame.tsx:147-150 | in a reachable state the check clears the effect and restores speed 100 iff now > expiresAt, paused or not, and otherwise changes nothing |
| Engine.Spawns | src/components/SnakeGame.tsx:155 | the spawn guard: no power-up on the board, the 1% coin succeeds, the game is neither over nor paused |
| Engine.Spawn | src/components/SnakeGame.tsx:154-158 | when the guard and the coin hold, the board gets the power-up NewPowerUp places; otherwise the state is unchanged; nothing but the board power-up ever changes |
| Engine.SpawnPreservesInvariant | src/components/SnakeGame.tsx:154-158 | spawning keeps the state invariant |
| Engine.SpawnOnlyWhenAllowed | src/components/SnakeGame.tsx:155-156 | the board power-up changes if and only if none was there, the coin succeeds and the game is neither over nor paused; the new one avoids snake and food, lasts 5000, has the rolled kind |
| Engine.Reset | src/components/SnakeGame.tsx:329-342 | snake [(15,15),(15,16),(15,17)], UP, score 0, not over, not paused, food off the pre-reset snake; board power-up, effect and speed untouched |
| Engine.ResetPreservesInvariant | src/components/SnakeGame.tsx:329-342 | reset keeps the state invariant |
| Engine.ScenarioGrow | src/components/SnakeGame.tsx:218-224 | at start with food at (15,14) one tick gives [(15,14),(15,15),(15,16),(15,17)], score 10, new food off the old snake |
| Engine.ScenarioShed | src/components/SnakeGame.tsx:226-228 | at start with food at (10,10) one tick gives [(15,14),(15,15),(15,16)], score 0, food unchanged |
| Engine.ScenarioTailCollision | src/components/SnakeGame.tsx:212-213 | a snake closed into a 2×2 square dies moving onto its own tail |
| Engine.ScenarioFoodUnderHead | src/components/SnakeGame.tsx:221-223 | the fresh food can be placed on the cell the head has just entered |
| Engine.MagnetFoodLandsOnNeck | src/components/SnakeGame.tsx:133-143 | under MAGNET, eating in a move that crosses no edge commits the food on the old head, now the second segment |
| Engine.ScenarioResetFoodOnSnake | src/components/SnakeGame.tsx:329-337 | reset can place the food on the restarted snake, because it excludes only the old snake |
| Engine.ScenarioSpeedExpires | src/components/SnakeGame.tsx:146-151 | a SPEED effect started at t0 is cleared at t0 + 5001, with speed back to 100 |
| SnakeGame.Game.constructor | src/components/SnakeGame.tsx:56-74 | the fields hold Initial(initialFood) and the invariant holds |
| SnakeGame.Game.ApplyPowerUp | src/components/SnakeGame.tsx:111-130 | the setter calls move the object as Engine.ApplyPowerUp |
| SnakeGame.Game.MoveFood | src/components/SnakeGame.tsx:133-143 | under MAGNET the food becomes the nudge of the given snapshot food toward the snapshot head; otherwise it is unchanged |
| SnakeGame.Game.Tick | src/components/SnakeGame.tsx:189-237 | the setter sequence of moveSnake moves the object as Engine.Step and keeps the invariant |
| SnakeGame.Game.KeyPress | src/components/SnakeGame.tsx:161-182 | the key handler moves the object as Engine.PressKey and keeps the invariant |
| SnakeGame.Game.CheckExpiry | src/components/SnakeGame.tsx:146-151 | the expiry effect moves the object as Engine.Expire and keeps the invariant |
| SnakeGame.Game.MaybeSpawn | src/components/SnakeGame.tsx:154-158 | the spawn effect moves the object as Engine.Spawn and keeps the invariant |
| SnakeGame.Game.Reset | src/components/SnakeGame.tsx:329-342 | resetGame moves the object as Engine.Reset and keeps the invariant |

## Left out

- Canvas drawing, the star geometry (`Math.cos`/`Math.sin`) and the fractional `CELL_SIZE`: floating-point rendering with no effect on the game.
- JSX markup, the score and status texts, the theme palettes and theme cycling: cosmetic only.
- Key-listener registration and the `setInterval`/`clearInterval` timer: event and timer plumbing. One tick is one call of `Game.Tick`, and one key event is one call of `Game.KeyPress`. Re-arming the timer when `gameSpeed` changes is not modelled; `gameSpeed` is kept only as a value.
- React's effect scheduling. The expiry check and the spawn run as explicit calls (`CheckExpiry`, `MaybeSpawn`), not on the dependency changes that trigger them in the component. In the component, the expiry effect re-runs only when `activePowerUp` changes, and a newly installed effect is never already expired. So a picked-up effect is never cleared there: the active effect stays until the next pickup replaces it. Once SPEED has been picked up, the 50 ms interval stays for the rest of the session, because neither a later pickup nor `resetGame` restores 100. `CheckExpiry` models the check as a call that can run at any time, so the model clears effects that the component itself never clears.
- `Math.random` and `Date.now`: replaced by the parameters `draws`, `coin`, `roll` and `now`. Probability distributions, such as the 1% spawn chance or the uniform choice of cell and kind, are not modelled.
- Spawner.GenerateFood: when no draw is ever free, the source loops forever. The model instead requires that the given draws contain a free cell, on the paths that reach the loop. The same holds for Spawner.GeneratePowerUp and for Engine.Step and Engine.Reset, which use them.
- The active effect's placeholder `position` {0, 0} and `duration` 5000 are never read, so `ActiveEffect` keeps only the kind and `expiresAt`.
- Timestamps are natural numbers, as `Date.now()` readings are. The JavaScript truthiness test on `expiresAt` is kept, as `expiresAt != 0`.
