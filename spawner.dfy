/** Placement of food and power-ups by rejection sampling. The random draws
    (`Math.floor(Math.random() * GRID_SIZE)` per axis) are a parameter: the
    sequence of candidate cells in the order they would be drawn. */
module Spawner {
  import opened Grid
  import opened PowerUps

  /** A cell that none of `taken` occupies. */
  predicate Free(p: Position, taken: seq<Position>) {
    p !in taken
  }

  /** Every candidate lies on the board, as the random draws always do. */
  predicate AllInGrid(draws: seq<Position>) {
    forall i :: 0 <= i < |draws| ==> InGrid(draws[i])
  }

  /** Some candidate from index `from` on is free: the sampling loop ends. */
  predicate HasFreeFrom(draws: seq<Position>, taken: seq<Position>, from: nat) {
    exists i :: from <= i < |draws| && Free(draws[i], taken)
  }

  /** Index of the first free candidate at or after `from`. */
  function FirstFree(draws: seq<Position>, taken: seq<Position>, from: nat): (k: nat)
    requires HasFreeFrom(draws, taken, from)
    ensures from <= k < |draws| && Free(draws[k], taken)
    ensures forall j :: from <= j < k ==> !Free(draws[j], taken)
    decreases |draws| - from
  {
    if Free(draws[from], taken) then from else FirstFree(draws, taken, from + 1)
  }

  /** The cell a rejection-sampling loop settles on: the first candidate
      outside `taken`. */
  function Sample(draws: seq<Position>, taken: seq<Position>): (p: Position)
    requires HasFreeFrom(draws, taken, 0)
    ensures Free(p, taken)
    ensures exists k :: 0 <= k < |draws| && p == draws[k] && forall j :: 0 <= j < k ==> !Free(draws[j], taken)
    ensures AllInGrid(draws) ==> InGrid(p)
  {
    var k := FirstFree(draws, taken, 0);
    draws[k]
  }

  /** The power-up a spawn places, given the type roll and the candidate
      cells: it avoids the snake and the food and lasts EFFECT_MS. */
  function NewPowerUp(snake: seq<Position>, food: Position, roll: nat, draws: seq<Position>): (pu: PowerUp)
    requires roll < |KINDS|
    requires HasFreeFrom(draws, snake + [food], 0)
    ensures pu.position !in snake && pu.position != food
    ensures pu.kind == KINDS[roll] && pu.duration == EFFECT_MS
    ensures AllInGrid(draws) ==> InGrid(pu.position)
  {
    PowerUp(KINDS[roll], Sample(draws, snake + [food]), EFFECT_MS)
  }

  /** `generateFood`: draw cells until one is not on the snake. */
  method GenerateFood(snake: seq<Position>, draws: seq<Position>) returns (food: Position)
    requires HasFreeFrom(draws, snake, 0)
    ensures food == Sample(draws, snake)
    ensures food !in snake
    ensures AllInGrid(draws) ==> InGrid(food)
  {
    var i := 0;
    food := draws[i];
    while food in snake
      invariant 0 <= i < |draws| && food == draws[i]
      invariant forall j :: 0 <= j < i ==> !Free(draws[j], snake)
      invariant HasFreeFrom(draws, snake, i)
      decreases |draws| - i
    {
      i := i + 1;
      food := draws[i];
    }
    assert i == FirstFree(draws, snake, 0);
  }

  /** `generatePowerUp`: roll the kind, then draw cells until one is neither
      on the snake nor on the food. */
  method GeneratePowerUp(snake: seq<Position>, food: Position, roll: nat, draws: seq<Position>)
    returns (pu: PowerUp)
    requires roll < |KINDS|
    requires HasFreeFrom(draws, snake + [food], 0)
    ensures pu == NewPowerUp(snake, food, roll, draws)
    ensures pu.position !in snake && pu.position != food
    ensures pu.kind == KINDS[roll] && pu.duration == EFFECT_MS
    ensures AllInGrid(draws) ==> InGrid(pu.position)
  {
    var kind := KINDS[roll];
    var i := 0;
    var position := draws[i];
    while position in snake || position == food
      invariant 0 <= i < |draws| && position == draws[i]
      invariant forall j :: 0 <= j < i ==> !Free(draws[j], snake + [food])
      invariant HasFreeFrom(draws, snake + [food], i)
      decreases |draws| - i
    {
      i := i + 1;
      position := draws[i];
    }
    assert i == FirstFree(draws, snake + [food], 0);
    pu := PowerUp(kind, position, EFFECT_MS);
  }
}
