/** Power-ups: the three kinds, the item lying on the board, the effect a
    picked-up item gives for a while, and the magnet's pull on the food. */
module PowerUps {
  import opened Grid

  /** Tick interval in milliseconds when no SPEED effect is in force. */
  const GAME_SPEED: nat := 100

  /** How long a power-up's effect lasts, in milliseconds. */
  const EFFECT_MS: nat := 5000

  datatype PowerUpType = Speed | Magnet | Shield

  /** The kinds a spawn chooses from, indexed by the spawn's type roll. */
  const KINDS: seq<PowerUpType> := [Speed, Magnet, Shield]

  /** An item waiting on the board to be picked up. */
  datatype PowerUp = PowerUp(kind: PowerUpType, position: Position, duration: nat)

  /** The effect in force after a pickup, until the clock passes `expiresAt`
      (milliseconds since the epoch). */
  datatype ActiveEffect = ActiveEffect(kind: PowerUpType, expiresAt: nat)

  /** The effect a pickup at time `now` installs. */
  function Activate(kind: PowerUpType, now: nat): (e: ActiveEffect)
    ensures e.kind == kind
    ensures e.expiresAt > now && e.expiresAt - now == EFFECT_MS
  {
    ActiveEffect(kind, now + EFFECT_MS)
  }

  /** The tick interval after picking up `kind`: only SPEED changes it, to
      half the base interval; the other kinds leave it as it was. */
  function SpeedAfterPickup(kind: PowerUpType, speed: nat): (r: nat)
    ensures kind == Speed ==> r == GAME_SPEED / 2 && r < GAME_SPEED
    ensures kind != Speed ==> r == speed
  {
    if kind == Speed then GAME_SPEED / 2 else speed
  }

  /** The expiry test of the clock check: the effect ends once `now` is
      strictly past `expiresAt` (an `expiresAt` of 0 counts as unset). */
  predicate Expired(e: ActiveEffect, now: nat) {
    e.expiresAt != 0 && now > e.expiresAt
  }

  lemma ActivatedEffectExpiresExactlyAfterDuration(kind: PowerUpType, start: nat, now: nat)
    ensures Expired(Activate(kind, start), now) <==> now > start + EFFECT_MS
  {
  }

  function Abs(v: int): nat {
    if v < 0 then -v else v
  }

  /** One unit step from `from` toward `to` on one axis. */
  function Toward(from: int, to: int): (step: int)
    ensures -1 <= step <= 1
    ensures Abs(from + step - to) == if from == to then 0 else Abs(from - to) - 1
  {
    if to > from then 1 else if to < from then -1 else 0
  }

  /** The magnet's pull: the food moves at most one cell toward the head on
      each axis independently (so possibly diagonally), never past it, and
      across no edge. */
  function Nudge(food: Position, head: Position): (r: Position)
    ensures Abs(r.x - food.x) <= 1 && Abs(r.y - food.y) <= 1
    ensures Abs(r.x - head.x) == if food.x == head.x then 0 else Abs(food.x - head.x) - 1
    ensures Abs(r.y - head.y) == if food.y == head.y then 0 else Abs(food.y - head.y) - 1
    ensures r == food <==> food == head
    ensures InGrid(food) && InGrid(head) ==> InGrid(r)
  {
    Pos(food.x + Toward(food.x, head.x), food.y + Toward(food.y, head.y))
  }

  /** The pull never moves the food farther from the head on either axis,
      and strictly closer on every axis where they differ. */
  lemma NudgeNeverRecedes(food: Position, head: Position)
    ensures Abs(Nudge(food, head).x - head.x) <= Abs(food.x - head.x)
    ensures Abs(Nudge(food, head).y - head.y) <= Abs(food.y - head.y)
    ensures food.x != head.x ==> Abs(Nudge(food, head).x - head.x) < Abs(food.x - head.x)
    ensures food.y != head.y ==> Abs(Nudge(food, head).y - head.y) < Abs(food.y - head.y)
  {
  }
}
