/** The game as one explicit state and its transitions: a tick, a key press,
    the power-up expiry check, the power-up spawn and the reset. Each
    transition is a function of the old state and of the outside inputs the
    component reads (the clock `now`, the random draws, the spawn coin). */
module Engine {
  import opened Wrappers
  import opened Grid
  import opened PowerUps
  import opened Spawner

  const INITIAL_SNAKE_LENGTH: nat := 3

  /** The snake at start and after a reset: a vertical line in the middle
      column, head at the top, heading up. */
  const START: seq<Position> := [Pos(15, 15), Pos(15, 16), Pos(15, 17)]

  /** Builds the starting snake segment by segment, head first. */
  method InitialSnake() returns (snake: seq<Position>)
    ensures |snake| == INITIAL_SNAKE_LENGTH
    ensures forall i :: 0 <= i < |snake| ==> snake[i] == Pos(GRID_SIZE / 2, GRID_SIZE / 2 + i)
    ensures snake == START
  {
    snake := [];
    var i := 0;
    while i < INITIAL_SNAKE_LENGTH
      invariant 0 <= i <= INITIAL_SNAKE_LENGTH
      invariant |snake| == i
      invariant forall j :: 0 <= j < i ==> snake[j] == Pos(GRID_SIZE / 2, GRID_SIZE / 2 + j)
    {
      snake := snake + [Pos(GRID_SIZE / 2, GRID_SIZE / 2 + i)];
      i := i + 1;
    }
  }

  datatype GameState = GameState(
    snake: seq<Position>,               // head first
    food: Position,
    powerUp: Option<PowerUp>,           // the item on the board
    activePowerUp: Option<ActiveEffect>,
    gameSpeed: nat,                     // tick interval in milliseconds
    direction: Direction,
    score: nat,
    gameOver: bool,
    isPaused: bool)

  /** What every reachable state satisfies. */
  predicate Invariant(s: GameState) {
    && |s.snake| >= INITIAL_SNAKE_LENGTH
    && (forall i :: 0 <= i < |s.snake| ==> InGrid(s.snake[i]))
    && InGrid(s.food)
    && (s.powerUp.Some? ==> InGrid(s.powerUp.value.position) && s.powerUp.value.duration == EFFECT_MS)
    && (s.activePowerUp.Some? ==> s.activePowerUp.value.expiresAt >= EFFECT_MS)
    && (s.gameSpeed == GAME_SPEED || s.gameSpeed == GAME_SPEED / 2)
    && (s.gameSpeed != GAME_SPEED ==> s.activePowerUp.Some?)
    && (EffectIs(s, Speed) ==> s.gameSpeed == GAME_SPEED / 2)
    && s.score % 10 == 0
  }

  /** The state the component mounts with; its food is drawn without looking
      at the snake. */
  function Initial(food: Position): (s: GameState)
    ensures InGrid(food) ==> Invariant(s)
    ensures s.snake == START && s.food == food && s.score == 0
    ensures s.powerUp == None && s.activePowerUp == None && s.gameSpeed == GAME_SPEED
    ensures s.direction == Up && !s.gameOver && !s.isPaused
  {
    GameState(START, food, None, None, GAME_SPEED, Up, 0, false, false)
  }

  predicate EffectIs(s: GameState, kind: PowerUpType) {
    s.activePowerUp.Some? && s.activePowerUp.value.kind == kind
  }

  // ---------------------------------------------------------------- tick

  function NewHead(s: GameState): Position
    requires |s.snake| > 0
  {
    NextHead(s.snake[0], s.direction)
  }

  /** Self-collision: the new head lands on any segment of the current snake,
      the tail that is about to move away included, and no SHIELD is active. */
  predicate Collides(s: GameState)
    requires |s.snake| > 0
  {
    !EffectIs(s, Shield) && NewHead(s) in s.snake
  }

  predicate Eats(s: GameState)
    requires |s.snake| > 0
  {
    NewHead(s) == s.food
  }

  predicate Live(s: GameState) {
    !s.gameOver && !s.isPaused
  }

  /** The tick reaches `generateFood`, which then needs a free draw. */
  predicate NeedsFood(s: GameState)
    requires |s.snake| > 0
  {
    Live(s) && !Collides(s) && Eats(s)
  }

  predicate TickReady(s: GameState, draws: seq<Position>) {
    |s.snake| > 0 && (NeedsFood(s) ==> HasFreeFrom(draws, s.snake, 0))
  }

  /** `applyPowerUp`: install the effect (replacing any current one) and, for
      SPEED only, halve the tick interval. */
  function ApplyPowerUp(s: GameState, kind: PowerUpType, now: nat): (r: GameState)
    ensures r.activePowerUp == Some(Activate(kind, now))
    ensures r.gameSpeed == SpeedAfterPickup(kind, s.gameSpeed)
    ensures r.(activePowerUp := s.activePowerUp, gameSpeed := s.gameSpeed) == s
  {
    s.(activePowerUp := Some(Activate(kind, now)), gameSpeed := SpeedAfterPickup(kind, s.gameSpeed))
  }

  /** The food committed when the snake eats. `generateFood` sets a fresh cell
      (avoiding the pre-tick snake), but with MAGNET active `moveFood` sets the
      food again afterwards, to the pre-tick food pulled toward the pre-tick
      head, and that later write is the one that stays. */
  function FoodAfterEating(s: GameState, draws: seq<Position>): Position
    requires |s.snake| > 0 && HasFreeFrom(draws, s.snake, 0)
  {
    var sampled := Sample(draws, s.snake);
    if EffectIs(s, Magnet) then Nudge(s.food, s.snake[0]) else sampled
  }

  /** One tick of `moveSnake` at wall-clock time `now`. */
  function Step(s: GameState, now: nat, draws: seq<Position>): (r: GameState)
    requires TickReady(s, draws)
    ensures |r.snake| == |s.snake| || |r.snake| == |s.snake| + 1
    ensures r.score == s.score || r.score == s.score + 10
    ensures |r.snake| == |s.snake| + 1 <==> r.score == s.score + 10
    ensures r.direction == s.direction && r.isPaused == s.isPaused
  {
    if !Live(s) then s
    else if Collides(s) then s.(gameOver := true)
    else
      var head := NewHead(s);
      var moved :=
        if Eats(s) then s.(score := s.score + 10, food := FoodAfterEating(s, draws), snake := [head] + s.snake)
        else s.(snake := [head] + s.snake[..|s.snake| - 1]);
      if s.powerUp.Some? && head == s.powerUp.value.position then
        ApplyPowerUp(moved, s.powerUp.value.kind, now).(powerUp := None)
      else moved
  }

  /** Every tick keeps the invariant, on any random draws on the board. */
  lemma StepPreservesInvariant(s: GameState, now: nat, draws: seq<Position>)
    requires Invariant(s) && TickReady(s, draws) && AllInGrid(draws)
    ensures Invariant(Step(s, now, draws))
  {
  }

  /** Nothing happens on a tick while the game is over or paused. */
  lemma StepIdleUnlessLive(s: GameState, now: nat, draws: seq<Position>)
    requires TickReady(s, draws) && !Live(s)
    ensures Step(s, now, draws) == s
  {
  }

  /** A collision ends the game and changes nothing else: no move, no score,
      no food, no pickup. */
  lemma StepCollision(s: GameState, now: nat, draws: seq<Position>)
    requires TickReady(s, draws) && Live(s) && Collides(s)
    ensures Step(s, now, draws) == s.(gameOver := true)
  {
  }

  /** A tick that does not end the game: the snake grows by its new head when
      it eats (score + 10) and otherwise sheds its tail (score unchanged). */
  lemma StepMoves(s: GameState, now: nat, draws: seq<Position>)
    requires TickReady(s, draws) && Live(s) && !Collides(s)
    ensures var r := Step(s, now, draws);
      && !r.gameOver
      && r.snake[0] == NextHead(s.snake[0], s.direction)
      && (Eats(s) ==> r.snake == [r.snake[0]] + s.snake && r.score == s.score + 10)
      && (!Eats(s) ==> r.snake == [r.snake[0]] + s.snake[..|s.snake| - 1] && r.score == s.score)
      && (!Eats(s) ==> r.food == s.food)
  {
  }

  /** With SHIELD active a tick never ends the game, even when the new head
      lands on the body. */
  lemma StepShieldImmunity(s: GameState, now: nat, draws: seq<Position>)
    requires TickReady(s, draws) && !s.gameOver && EffectIs(s, Shield)
    ensures !Step(s, now, draws).gameOver
  {
  }

  /** When the snake eats, the committed food is the fresh sample, which
      avoids every segment of the pre-tick snake, unless MAGNET is active, in
      which case it is the old food pulled one cell toward the old head. */
  lemma StepFood(s: GameState, now: nat, draws: seq<Position>)
    requires TickReady(s, draws) && NeedsFood(s)
    ensures var r := Step(s, now, draws);
      && (!EffectIs(s, Magnet) ==> r.food == Sample(draws, s.snake) && r.food !in s.snake)
      && (EffectIs(s, Magnet) ==> r.food == Nudge(s.food, s.snake[0]))
  {
  }

  /** Landing on the board power-up starts its effect for EFFECT_MS from
      `now`, clears the board, and halves the interval only for SPEED; any
      other tick leaves power-up, effect and speed as they were. */
  lemma StepPickup(s: GameState, now: nat, draws: seq<Position>)
    requires TickReady(s, draws) && Live(s) && !Collides(s)
    ensures var r := Step(s, now, draws);
      if s.powerUp.Some? && NewHead(s) == s.powerUp.value.position then
        && r.powerUp == None
        && r.activePowerUp == Some(ActiveEffect(s.powerUp.value.kind, now + EFFECT_MS))
        && r.gameSpeed == (if s.powerUp.value.kind == Speed then GAME_SPEED / 2 else s.gameSpeed)
      else
        r.powerUp == s.powerUp && r.activePowerUp == s.activePowerUp && r.gameSpeed == s.gameSpeed
  {
  }

  // ----------------------------------------------------------- key press

  datatype Key = ArrowUp | ArrowDown | ArrowLeft | ArrowRight | Space | OtherKey

  /** The direction after pressing an arrow for `requested`: refused when it
      would reverse the `current` direction, taken otherwise. */
  function Turn(current: Direction, requested: Direction): (r: Direction)
    ensures r == requested <==> requested != Opposite(current)
    ensures r != requested ==> r == current
    ensures r != Opposite(current)
  {
    OppositeInvolutive(requested);
    if current != Opposite(requested) then requested else current
  }

  /** The keyboard handler. */
  function PressKey(s: GameState, k: Key): (r: GameState)
    ensures r.(direction := s.direction, isPaused := s.isPaused) == s
    ensures r.direction != Opposite(s.direction)
    ensures k != Space ==> r.isPaused == s.isPaused
    ensures k == Space || k == OtherKey ==> r.direction == s.direction
    ensures k == Space && !s.gameOver ==> r.isPaused == !s.isPaused
  {
    if s.gameOver then s
    else match k
      case ArrowUp => s.(direction := Turn(s.direction, Up))
      case ArrowDown => s.(direction := Turn(s.direction, Down))
      case ArrowLeft => s.(direction := Turn(s.direction, Left))
      case ArrowRight => s.(direction := Turn(s.direction, Right))
      case Space => s.(isPaused := !s.isPaused)
      case OtherKey => s
  }

  lemma PressKeyPreservesInvariant(s: GameState, k: Key)
    requires Invariant(s)
    ensures Invariant(PressKey(s, k))
  {
  }

  /** Every key is ignored once the game is over. */
  lemma PressKeyIgnoredWhenOver(s: GameState, k: Key)
    requires s.gameOver
    ensures PressKey(s, k) == s
  {
  }

  /** An arrow key sets its direction exactly when that is not the reverse
      of the direction in force; a refused arrow changes nothing. */
  lemma ArrowAcceptedUnlessReverse(s: GameState, k: Key, d: Direction)
    requires !s.gameOver
    requires (k, d) in [(ArrowUp, Up), (ArrowDown, Down), (ArrowLeft, Left), (ArrowRight, Right)]
    ensures PressKey(s, k).direction == d <==> d != Opposite(s.direction)
    ensures d == Opposite(s.direction) ==> PressKey(s, k) == s
  {
  }

  /** Space toggles the pause flag, so pressing it twice restores the state. */
  lemma SpaceTwiceRestores(s: GameState)
    requires !s.gameOver
    ensures PressKey(s, Space).isPaused == !s.isPaused
    ensures PressKey(PressKey(s, Space), Space) == s
  {
  }

  /** The reversal test compares with the direction state, which a key press
      updates at once: two presses between ticks can reverse the snake
      (UP, then LEFT, then DOWN). */
  lemma TwoPressesCanReverse(s: GameState)
    requires !s.gameOver && s.direction == Up
    ensures PressKey(PressKey(s, ArrowLeft), ArrowDown).direction == Opposite(s.direction)
  {
  }

  // -------------------------------------------------------- expiry check

  /** The clock check: clears the active effect and restores the base
      interval once `now` is past its expiry, paused or not. */
  function Expire(s: GameState, now: nat): (r: GameState)
    ensures r.(gameSpeed := s.gameSpeed, activePowerUp := s.activePowerUp) == s
    ensures r.activePowerUp == None || r == s
  {
    if s.activePowerUp.Some? && Expired(s.activePowerUp.value, now) then
      s.(gameSpeed := GAME_SPEED, activePowerUp := None)
    else s
  }

  lemma ExpirePreservesInvariant(s: GameState, now: nat)
    requires Invariant(s)
    ensures Invariant(Expire(s, now))
  {
  }

  /** In a reachable state the check fires exactly when `now` is past the
      expiry time; when it does not fire nothing changes. */
  lemma ExpireExactly(s: GameState, now: nat)
    requires Invariant(s) && s.activePowerUp.Some?
    ensures now > s.activePowerUp.value.expiresAt ==>
      Expire(s, now) == s.(gameSpeed := GAME_SPEED, activePowerUp := None)
    ensures now <= s.activePowerUp.value.expiresAt ==> Expire(s, now) == s
  {
  }

  // -------------------------------------------------------------- spawn

  /** The spawn guard (`coin` is the 1% draw) reaches `generatePowerUp`. */
  predicate Spawns(s: GameState, coin: bool) {
    s.powerUp.None? && coin && !s.gameOver && !s.isPaused
  }

  predicate SpawnReady(s: GameState, coin: bool, roll: nat, draws: seq<Position>) {
    roll < |KINDS| && (Spawns(s, coin) ==> HasFreeFrom(draws, s.snake + [s.food], 0))
  }

  /** The spawn effect: when the guard holds, place a new power-up. */
  function Spawn(s: GameState, coin: bool, roll: nat, draws: seq<Position>): (r: GameState)
    requires SpawnReady(s, coin, roll, draws)
    ensures r.(powerUp := s.powerUp) == s
    ensures Spawns(s, coin) ==> r.powerUp == Some(NewPowerUp(s.snake, s.food, roll, draws))
    ensures !Spawns(s, coin) ==> r == s
  {
    if Spawns(s, coin) then s.(powerUp := Some(NewPowerUp(s.snake, s.food, roll, draws))) else s
  }

  lemma SpawnPreservesInvariant(s: GameState, coin: bool, roll: nat, draws: seq<Position>)
    requires Invariant(s) && SpawnReady(s, coin, roll, draws) && AllInGrid(draws)
    ensures Invariant(Spawn(s, coin, roll, draws))
  {
  }

  /** A power-up appears exactly when none is on the board, the coin succeeds
      and the game is live, and it then avoids the snake and the food and
      lasts EFFECT_MS. */
  lemma SpawnOnlyWhenAllowed(s: GameState, coin: bool, roll: nat, draws: seq<Position>)
    requires SpawnReady(s, coin, roll, draws)
    ensures var r := Spawn(s, coin, roll, draws);
      && (r.powerUp != s.powerUp <==> Spawns(s, coin))
      && (r.powerUp.Some? && s.powerUp.None? ==>
            r.powerUp.value.position !in s.snake && r.powerUp.value.position != s.food
            && r.powerUp.value.duration == EFFECT_MS && r.powerUp.value.kind == KINDS[roll])
  {
  }

  // -------------------------------------------------------------- reset

  /** `resetGame`: the starting snake, direction UP, score 0, running; the new
      food is sampled against the snake as it was before the reset. The board
      power-up, the active effect and the speed are left as they were. */
  function Reset(s: GameState, draws: seq<Position>): (r: GameState)
    requires HasFreeFrom(draws, s.snake, 0)
    ensures r.snake == START && r.direction == Up && r.score == 0
    ensures !r.gameOver && !r.isPaused
    ensures r.food !in s.snake
    ensures r.powerUp == s.powerUp && r.activePowerUp == s.activePowerUp && r.gameSpeed == s.gameSpeed
  {
    s.(snake := START, food := Sample(draws, s.snake), direction := Up, score := 0,
       gameOver := false, isPaused := false)
  }

  lemma ResetPreservesInvariant(s: GameState, draws: seq<Position>)
    requires Invariant(s) && HasFreeFrom(draws, s.snake, 0) && AllInGrid(draws)
    ensures Invariant(Reset(s, draws))
  {
  }

  // ---------------------------------------------------------- scenarios

  /** Eating at the start: head (15,14) meets the food, the tail is kept. */
  lemma ScenarioGrow(draws: seq<Position>)
    requires HasFreeFrom(draws, START, 0)
    ensures var r := Step(Initial(Pos(15, 14)), 0, draws);
      r.snake == [Pos(15, 14), Pos(15, 15), Pos(15, 16), Pos(15, 17)] && r.score == 10
      && r.food !in START
  {
  }

  /** Moving at the start without food: the tail (15,17) is dropped. */
  lemma ScenarioShed(draws: seq<Position>)
    ensures var r := Step(Initial(Pos(10, 10)), 0, draws);
      r.snake == [Pos(15, 14), Pos(15, 15), Pos(15, 16)] && r.score == 0 && r.food == Pos(10, 10)
  {
  }

  /** The tail cell counts for the collision test although it would move away
      in the same tick: a snake closed into a 2×2 square dies. */
  lemma ScenarioTailCollision(now: nat, draws: seq<Position>)
    ensures var s := GameState([Pos(1, 1), Pos(2, 1), Pos(2, 2), Pos(1, 2)], Pos(9, 9),
                               None, None, GAME_SPEED, Down, 30, false, false);
      Step(s, now, draws).gameOver
  {
  }

  /** The fresh food avoids only the pre-tick snake, so it may be placed
      under the new head. */
  lemma ScenarioFoodUnderHead(now: nat)
    ensures HasFreeFrom([Pos(15, 14)], START, 0)
    ensures Step(Initial(Pos(15, 14)), now, [Pos(15, 14)]).food
         == Step(Initial(Pos(15, 14)), now, [Pos(15, 14)]).snake[0]
  {
    assert Free([Pos(15, 14)][0], START);
  }

  /** With MAGNET, eating in a move that crosses no edge commits the food on
      the cell the head just left, the snake's second segment. */
  lemma MagnetFoodLandsOnNeck(s: GameState, now: nat, draws: seq<Position>)
    requires TickReady(s, draws) && NeedsFood(s) && EffectIs(s, Magnet)
    requires InGrid(Shift(s.snake[0], s.direction))
    ensures Step(s, now, draws).food == Step(s, now, draws).snake[1] == s.snake[0]
  {
  }

  /** Reset samples its food against the old snake, so it may land on the
      restarted snake. */
  lemma ScenarioResetFoodOnSnake()
    ensures HasFreeFrom([Pos(15, 16)], [Pos(1, 1), Pos(1, 2), Pos(1, 3)], 0)
    ensures var s := Initial(Pos(3, 3)).(snake := [Pos(1, 1), Pos(1, 2), Pos(1, 3)], gameOver := true);
      Reset(s, [Pos(15, 16)]).food in Reset(s, [Pos(15, 16)]).snake
  {
    assert Free([Pos(15, 16)][0], [Pos(1, 1), Pos(1, 2), Pos(1, 3)]);
  }

  /** Expiry at t0 + 5001 of a SPEED effect started at t0. */
  lemma ScenarioSpeedExpires(t0: nat)
    ensures var s := Initial(Pos(0, 0)).(activePowerUp := Some(Activate(Speed, t0)), gameSpeed := GAME_SPEED / 2);
      Expire(s, t0 + 5001) == Initial(Pos(0, 0))
  {
  }
}
