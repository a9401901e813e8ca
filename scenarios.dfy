/**
 * Clients of the two scripts, in the engine's order of calls, showing that
 * their contracts pin down the play: growth on food, the deferred respawn,
 * self-collision, the boundary and the unguarded score.
 */
module Scenarios {
  import opened Wrappers
  import opened Geometry
  import opened GameManagement
  import opened SnakeController

  method Start() returns (gm: GameManager, snake: Snake)
    ensures fresh(gm) && fresh(snake) && gm.Valid() && snake.Valid() && snake.gameManager == gm
    ensures gm.score == 0 && !gm.isGameOver && !gm.respawnPending
    ensures gm.snake == Some(Zero) && gm.food == Some(Vec(0.0, -200.0))
    ensures snake.head == Zero && snake.direction == Right && snake.bodyNodes == [Zero]
    ensures snake.moveSpeed == 200.0 && snake.bodySpacing == 40.0
  {
    gm := new GameManager(true, true);
    gm.InitGame(0.5, 0.25);
    snake := new Snake(Zero, 200.0, 40.0, gm);
    snake.InitSnake();
  }

  method TurnAndMove(normalize: Vec -> Vec) {
    var gm, snake := Start();
    snake.OnKeyDown(ArrowLeft);
    assert snake.direction == Right;
    snake.OnKeyDown(ArrowUp);
    assert snake.direction == Up;
    snake.Update(0.5, normalize);
    assert snake.head == Vec(0.0, 100.0) && snake.bodyNodes == [snake.head];
  }

  method EatOnce() {
    var gm := new GameManager(true, true);
    var snake := new Snake(Zero, 200.0, 40.0, gm);
    snake.InitSnake();
    snake.OnCollision(FoodTag);
    assert snake.bodyNodes == [Zero, Vec(-40.0, 0.0)];
    assert gm.score == 10 && gm.food == None && gm.respawnPending;
  }

  method Respawn() {
    var gm := new GameManager(true, true);
    gm.InitGame(0.5, 0.25);
    gm.AddScore();
    assert gm.food == None;
    gm.Tick(0.0, 0.999);
    assert gm.food == Some(Vec(-400.0, 360.0)) && !gm.respawnPending;
    gm.Tick(0.5, 0.5);
    assert gm.food == Some(Vec(-400.0, 360.0));
  }

  method BiteSelf() {
    var gm, snake := Start();
    snake.OnCollision(BodyTag);
    assert gm.isGameOver && gm.score == 0 && snake.bodyNodes == [Zero];
    gm.AddScore();
    assert gm.isGameOver && gm.score == 10;
  }

  method Boundary() {
    var gm := new GameManager(true, true);
    var snake := new Snake(Vec(410.0, 0.0), 200.0, 40.0, gm);
    snake.OnCollision("Wall");
    assert gm.isGameOver;

    var edge := new GameManager(true, true);
    var atEdge := new Snake(Vec(400.0, -400.0), 200.0, 40.0, edge);
    atEdge.OnCollision("Wall");
    assert !edge.isGameOver;
  }
}
