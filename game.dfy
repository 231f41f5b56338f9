/** The component's state holders as one object: every `useState` pair is a
    field, every setter call an assignment. Each method is one handler of the
    component and is proved to move the object exactly as the matching
    transition of `Engine` moves a `GameState`, keeping `Engine.Invariant`. */
module SnakeGame {
  import opened Wrappers
  import opened Grid
  import opened PowerUps
  import opened Spawner
  import opened Engine

  class Game {
    var snake: seq<Position>
    var food: Position
    var powerUp: Option<PowerUp>
    var activePowerUp: Option<ActiveEffect>
    var gameSpeed: nat
    var direction: Direction
    var score: nat
    var gameOver: bool
    var isPaused: bool

    /** The state as one value. */
    ghost function State(): GameState
      reads this
    {
      GameState(snake, food, powerUp, activePowerUp, gameSpeed, direction, score, gameOver, isPaused)
    }

    ghost predicate Valid()
      reads this
    {
      Invariant(State())
    }

    /** Mounting: the starting snake, and a first food cell drawn by the
        caller without regard to the snake. */
    constructor (initialFood: Position)
      requires InGrid(initialFood)
      ensures Valid() && State() == Initial(initialFood)
    {
      var start := InitialSnake();
      snake := start;
      food := initialFood;
      powerUp := None;
      activePowerUp := None;
      gameSpeed := GAME_SPEED;
      direction := Up;
      score := 0;
      gameOver := false;
      isPaused := false;
    }

    /** `applyPowerUp`. */
    method ApplyPowerUp(kind: PowerUpType, now: nat)
      modifies this`gameSpeed, this`activePowerUp
      ensures State() == Engine.ApplyPowerUp(old(State()), kind, now)
    {
      match kind {
        case Speed => gameSpeed := GAME_SPEED / 2;
        case Magnet => // the pull happens in MoveFood
        case Shield => // the immunity happens in the collision test of Tick
      }
      activePowerUp := Some(ActiveEffect(kind, now + EFFECT_MS));
    }

    /** `moveFood`, reading the food and head of the tick's snapshot. */
    method MoveFood(seenFood: Position, seenHead: Position)
      modifies this`food
      ensures food == if EffectIs(old(State()), Magnet) then Nudge(seenFood, seenHead) else old(food)
    {
      if activePowerUp.Some? && activePowerUp.value.kind == Magnet {
        var newFood := seenFood;
        if seenHead.x > seenFood.x { newFood := newFood.(x := newFood.x + 1); }
        if seenHead.x < seenFood.x { newFood := newFood.(x := newFood.x - 1); }
        if seenHead.y > seenFood.y { newFood := newFood.(y := newFood.y + 1); }
        if seenHead.y < seenFood.y { newFood := newFood.(y := newFood.y - 1); }
        food := newFood;
      }
    }

    /** `moveSnake`: one tick at time `now`; `draws` are the candidate cells
        `generateFood` would draw if the snake eats. */
    method Tick(now: nat, draws: seq<Position>)
      requires Valid() && TickReady(State(), draws) && AllInGrid(draws)
      modifies this
      ensures Valid()
      ensures State() == Step(old(State()), now, draws)
    {
      StepPreservesInvariant(State(), now, draws);
      if gameOver || isPaused {
        return;
      }
      var head := snake[0];
      var newHead := NextHead(head, direction);
      var shielded := activePowerUp.Some? && activePowerUp.value.kind == Shield;
      if !shielded && newHead in snake {
        gameOver := true;
        return;
      }
      var newSnake := [newHead];
      // the closure's values: `generateFood` and `moveFood` see the snake and
      // the food as they were when the tick began
      var seenFood := food;
      if newHead.x == food.x && newHead.y == food.y {
        score := score + 10;
        food := GenerateFood(snake, draws);
        newSnake := newSnake + snake;
        MoveFood(seenFood, head);
      } else {
        newSnake := newSnake + snake[..|snake| - 1];
      }
      if powerUp.Some? && newHead.x == powerUp.value.position.x && newHead.y == powerUp.value.position.y {
        ApplyPowerUp(powerUp.value.kind, now);
        powerUp := None;
      }
      snake := newSnake;
    }

    /** `handleKeyPress`. */
    method KeyPress(k: Key)
      requires Valid()
      modifies this`direction, this`isPaused
      ensures Valid()
      ensures State() == PressKey(old(State()), k)
    {
      PressKeyPreservesInvariant(State(), k);
      if gameOver {
        return;
      }
      match k {
        case ArrowUp => if direction != Down { direction := Up; }
        case ArrowDown => if direction != Up { direction := Down; }
        case ArrowLeft => if direction != Right { direction := Left; }
        case ArrowRight => if direction != Left { direction := Right; }
        case Space => isPaused := !isPaused;
        case OtherKey =>
      }
    }

    /** The expiry effect, run with the clock reading `now`. */
    method CheckExpiry(now: nat)
      requires Valid()
      modifies this`gameSpeed, this`activePowerUp
      ensures Valid()
      ensures State() == Expire(old(State()), now)
    {
      ExpirePreservesInvariant(State(), now);
      if activePowerUp.Some? && activePowerUp.value.expiresAt != 0 && now > activePowerUp.value.expiresAt {
        gameSpeed := GAME_SPEED;
        activePowerUp := None;
      }
    }

    /** The spawn effect: `coin` is the 1% draw, `roll` the type draw and
        `draws` the candidate cells. */
    method MaybeSpawn(coin: bool, roll: nat, draws: seq<Position>)
      requires Valid() && SpawnReady(State(), coin, roll, draws) && AllInGrid(draws)
      modifies this`powerUp
      ensures Valid()
      ensures State() == Spawn(old(State()), coin, roll, draws)
    {
      SpawnPreservesInvariant(State(), coin, roll, draws);
      if powerUp.None? && coin && !gameOver && !isPaused {
        var spawned := GeneratePowerUp(snake, food, roll, draws);
        powerUp := Some(spawned);
      }
    }

    /** `resetGame`. */
    method Reset(draws: seq<Position>)
      requires Valid() && HasFreeFrom(draws, snake, 0) && AllInGrid(draws)
      modifies this
      ensures Valid()
      ensures State() == Engine.Reset(old(State()), draws)
    {
      ResetPreservesInvariant(State(), draws);
      var oldSnake := snake;
      snake := InitialSnake();
      food := GenerateFood(oldSnake, draws);
      direction := Up;
      score := 0;
      gameOver := false;
      isPaused := false;
    }
  }
}
