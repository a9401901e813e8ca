/**
 * The game manager script: score, the game-over flag, and the spawning of the
 * snake and of the single food item, including the respawn it defers to the
 * next frame after food is eaten.
 */
module GameManagement {
  import opened Wrappers
  import opened Geometry

  /** Points awarded per food eaten. */
  const FoodScore := 10

  /** Width of one grid cell of the play field; food sits on cell corners. */
  const Cell := 40

  /**
   * One food coordinate from one uniform draw `r` in [0, 1): the floor of
   * `r * 20 - 10`, times the cell width. It is a multiple of 40 in [-400, 360].
   */
  function FoodCoord(r: real): (c: int)
    requires 0.0 <= r < 1.0
    ensures c % Cell == 0
    ensures -400 <= c <= 360
  {
    (r * 20.0 - 10.0).Floor * Cell
  }

  /** Every grid coordinate is produced by some draw: the grid is covered. */
  lemma FoodCoordCoversGrid(k: int)
    requires -10 <= k < 10
    ensures 0.0 <= (k + 10) as real / 20.0 < 1.0
    ensures FoodCoord((k + 10) as real / 20.0) == k * Cell
  {
    var r := (k + 10) as real / 20.0;
    assert r * 20.0 - 10.0 == k as real;
  }

  /** A point both of whose coordinates are grid coordinates. */
  ghost predicate OnGrid(p: Vec) {
    p.x == p.x.Floor as real && p.x.Floor % Cell == 0 && -400 <= p.x.Floor <= 360 &&
    p.y == p.y.Floor as real && p.y.Floor % Cell == 0 && -400 <= p.y.Floor <= 360
  }

  /** The food position picked by the two draws `rx` (first) and `ry`. */
  function FoodPosition(rx: real, ry: real): (p: Vec)
    requires 0.0 <= rx < 1.0 && 0.0 <= ry < 1.0
    ensures OnGrid(p)
  {
    Vec(FoodCoord(rx) as real, FoodCoord(ry) as real)
  }

  class GameManager {
    /** Whether the snake and food prefabs are configured in the editor. */
    const hasSnakePrefab: bool
    const hasFoodPrefab: bool

    /** Position of the spawned snake node, None while none was spawned. */
    var snake: Option<Vec>
    /** Position of the live food node, None when it is absent. */
    var food: Option<Vec>
    var score: int
    var isGameOver: bool
    /** A food respawn scheduled for the next frame and not yet run. */
    var respawnPending: bool

    /** How many times addScore ran since the last initGame. */
    ghost var eaten: nat

    ghost predicate Valid()
      reads this
    {
      score == FoodScore * eaten &&
      (food.Some? ==> OnGrid(food.value))
    }

    /** The field initialisers. */
    constructor (hasSnakePrefab: bool, hasFoodPrefab: bool)
      ensures Valid()
      ensures this.hasSnakePrefab == hasSnakePrefab && this.hasFoodPrefab == hasFoodPrefab
      ensures snake == None && food == None && score == 0 && !isGameOver && !respawnPending
      ensures eaten == 0
    {
      this.hasSnakePrefab := hasSnakePrefab;
      this.hasFoodPrefab := hasFoodPrefab;
      snake, food := None, None;
      score, isGameOver, respawnPending := 0, false, false;
      eaten := 0;
    }

    /** Resets the score and the flag, then spawns the snake and the food. */
    method InitGame(rx: real, ry: real)
      requires Valid()
      requires 0.0 <= rx < 1.0 && 0.0 <= ry < 1.0
      modifies this
      ensures Valid()
      ensures score == 0 && !isGameOver && eaten == 0
      ensures snake == if hasSnakePrefab then Some(Zero) else old(snake)
      ensures food == if hasFoodPrefab then Some(FoodPosition(rx, ry)) else old(food)
      ensures respawnPending == old(respawnPending)
    {
      score := 0;
      eaten := 0;
      isGameOver := false;
      SpawnSnake();
      SpawnFood(rx, ry);
    }

    /** Places a new snake node at the origin when the prefab is set. */
    method SpawnSnake()
      requires Valid()
      modifies this
      ensures Valid()
      ensures snake == if hasSnakePrefab then Some(Zero) else old(snake)
      ensures food == old(food) && score == old(score) && isGameOver == old(isGameOver)
      ensures respawnPending == old(respawnPending) && eaten == old(eaten)
    {
      if hasSnakePrefab {
        snake := Some(Zero);
      }
    }

    /** Places a new food node on the grid when the prefab is set. */
    method SpawnFood(rx: real, ry: real)
      requires Valid()
      requires 0.0 <= rx < 1.0 && 0.0 <= ry < 1.0
      modifies this
      ensures Valid()
      ensures food == if hasFoodPrefab then Some(FoodPosition(rx, ry)) else old(food)
      ensures snake == old(snake) && score == old(score) && isGameOver == old(isGameOver)
      ensures respawnPending == old(respawnPending) && eaten == old(eaten)
    {
      if hasFoodPrefab {
        var x := FoodCoord(rx);
        var y := FoodCoord(ry);
        food := Some(Vec(x as real, y as real));
      }
    }

    /** Raises the game-over flag; the score is kept (and logged). */
    method GameOver()
      requires Valid()
      modifies this
      ensures Valid()
      ensures isGameOver
      ensures score == old(score) && food == old(food) && snake == old(snake)
      ensures respawnPending == old(respawnPending) && eaten == old(eaten)
    {
      isGameOver := true;
    }

    /**
     * Adds 10 points, destroys the food and schedules its respawn for the next
     * frame. Nothing checks the game-over flag first.
     */
    method AddScore()
      requires Valid()
      modifies this
      ensures Valid()
      ensures score == old(score) + FoodScore && eaten == old(eaten) + 1
      ensures food == None && respawnPending
      ensures isGameOver == old(isGameOver) && snake == old(snake)
    {
      score := score + FoodScore;
      eaten := eaten + 1;
      if food.Some? {
        food := None;
      }
      respawnPending := true;
    }

    /**
     * The next frame: runs the respawn scheduled by AddScore, if any. Like the
     * scheduled callback, it does not look at the game-over flag.
     */
    method Tick(rx: real, ry: real)
      requires Valid()
      requires 0.0 <= rx < 1.0 && 0.0 <= ry < 1.0
      modifies this
      ensures Valid()
      ensures !respawnPending
      ensures food == if old(respawnPending) && hasFoodPrefab then Some(FoodPosition(rx, ry)) else old(food)
      ensures snake == old(snake) && score == old(score) && isGameOver == old(isGameOver)
      ensures eaten == old(eaten)
    {
      if respawnPending {
        respawnPending := false;
        SpawnFood(rx, ry);
      }
    }
  }
}
