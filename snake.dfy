/**
 * The snake controller script: the turn policy for arrow keys, the per-frame
 * head move and body relaxation over the position history, growth, and the
 * classification of physics contacts.
 */
module SnakeController {
  import opened Wrappers
  import opened Geometry
  import GameManagement

  /** Names of the nodes a contact can come from. */
  const FoodTag := "Food"
  const BodyTag := "SnakeBody"

  /** Half the side of the square play field. */
  const FieldHalf := 400.0

  /** The keys a key-down event can carry: the four arrows, or any key that is not an arrow. */
  datatype Key = ArrowUp | ArrowDown | ArrowLeft | ArrowRight | OtherKey

  /** The heading an arrow key asks for (zero for any other key). */
  function KeyDirection(k: Key): Vec
  {
    match k
    case ArrowUp => Up
    case ArrowDown => Down
    case ArrowLeft => Left
    case ArrowRight => Right
    case OtherKey => Zero
  }

  /**
   * The turn policy: each arrow key sets its heading unless the current
   * heading's component along that axis is the opposite unit; other keys do
   * nothing.
   */
  function Turn(d: Vec, k: Key): (r: Vec)
    ensures r == d || r == KeyDirection(k)
  {
    match k
    case ArrowUp => if d.y != -1.0 then Up else d
    case ArrowDown => if d.y != 1.0 then Down else d
    case ArrowLeft => if d.x != 1.0 then Left else d
    case ArrowRight => if d.x != -1.0 then Right else d
    case OtherKey => d
  }

  /**
   * From an axis heading the turn policy stays on an axis heading and never
   * reverses: an arrow key yields its own heading unless that is the exact
   * opposite, in which case (as for every other key) the heading is kept.
   */
  lemma TurnPolicy(d: Vec, k: Key)
    requires IsAxisUnit(d)
    ensures IsAxisUnit(Turn(d, k)) && Turn(d, k) != Neg(d)
    ensures !k.OtherKey? ==>
              Turn(d, k) == if KeyDirection(k) == Neg(d) then d else KeyDirection(k)
    ensures k.OtherKey? ==> Turn(d, k) == d
  {
    if d == Up {
      assert Neg(d) == Down;
    } else if d == Down {
      assert Neg(d) == Up;
    } else if d == Left {
      assert Neg(d) == Right;
    } else {
      assert Neg(d) == Left;
    }
  }

  /**
   * The policy compares each press with the current heading only, so two
   * presses in a row, neither of them a reversal, do reverse any axis heading.
   */
  lemma TwoPressReversal(d: Vec) returns (k1: Key, k2: Key)
    requires IsAxisUnit(d)
    ensures Turn(d, k1) != d && Turn(d, k1) != Neg(d)
    ensures Turn(Turn(d, k1), k2) == Neg(d)
  {
    if d == Right {
      k1, k2 := ArrowUp, ArrowLeft;
    } else if d == Left {
      k1, k2 := ArrowUp, ArrowRight;
    } else if d == Up {
      k1, k2 := ArrowRight, ArrowDown;
    } else {
      k1, k2 := ArrowRight, ArrowUp;
    }
  }

  function Abs(v: real): real { if v < 0.0 then -v else v }

  /**
   * The bounds test on the head: strictly beyond 400 on either axis. The play
   * field is therefore the closed square [-400, 400] x [-400, 400].
   */
  predicate OutOfBounds(p: Vec)
    ensures !OutOfBounds(p) <==> -FieldHalf <= p.x <= FieldHalf && -FieldHalf <= p.y <= FieldHalf
  {
    Abs(p.x) > FieldHalf || Abs(p.y) > FieldHalf
  }

  /** What a begin-contact does. */
  datatype Reaction = GrowAndScore | EndGame | NoEffect

  /**
   * Contact classification by the other node's name and the bounds test. Food
   * always grows and scores, even out of bounds; a body contact, or any other
   * contact out of bounds, ends the game; anything else in bounds does nothing.
   */
  function Classify(otherName: string, outOfBounds: bool): (r: Reaction)
    ensures r == GrowAndScore <==> otherName == FoodTag
    ensures r == EndGame <==> otherName != FoodTag && (otherName == BodyTag || outOfBounds)
    ensures outOfBounds ==> r != NoEffect
  {
    if otherName == FoodTag then GrowAndScore
    else if otherName == BodyTag || outOfBounds then EndGame
    else NoEffect
  }

  /**
   * One pass of the spacing loop over a position history `s`: entry 0 is kept,
   * and each later entry is replaced by the point `spacing` behind its (already
   * replaced) predecessor, along the normalised vector from the entry's own
   * old value to that predecessor. `normalize` stands for the engine's
   * `Vec3.normalize`, left uninterpreted.
   */
  function Relax(s: seq<Vec>, normalize: Vec -> Vec, spacing: real): (r: seq<Vec>)
    ensures |r| == |s|
    ensures |s| > 0 ==> r[0] == s[0]
    decreases |s|
  {
    if |s| <= 1 then s
    else
      var p := Relax(s[..|s| - 1], normalize, spacing);
      p + [Behind(p[|s| - 2], normalize(Sub(p[|s| - 2], s[|s| - 1])), spacing)]
  }

  /** Entry `i` of a relaxed history, in terms of entry `i - 1`. */
  lemma {:induction false} RelaxAt(s: seq<Vec>, normalize: Vec -> Vec, spacing: real, i: int)
    requires 1 <= i < |s|
    ensures var r := Relax(s, normalize, spacing);
      r[i] == Behind(r[i - 1], normalize(Sub(r[i - 1], s[i])), spacing)
  {
    if i < |s| - 1 {
      var t := s[..|s| - 1];
      RelaxAt(t, normalize, spacing, i);
      assert t[i] == s[i];
    }
  }

  /** Relaxing one more entry of a prefix: the step the spacing loop takes. */
  lemma RelaxExtend(s: seq<Vec>, normalize: Vec -> Vec, spacing: real, i: int)
    requires 1 <= i < |s|
    ensures var done := Relax(s[..i], normalize, spacing);
      Relax(s[..i + 1], normalize, spacing) ==
        done + [Behind(done[i - 1], normalize(Sub(done[i - 1], s[i])), spacing)] &&
      (done + s[i..])[i := Behind(done[i - 1], normalize(Sub(done[i - 1], s[i])), spacing)] ==
        Relax(s[..i + 1], normalize, spacing) + s[i + 1..]
  {
    assert s[..i + 1][..i] == s[..i];
  }

  /**
   * When `normalize` yields unit vectors for non-zero input, every relaxed
   * entry lies exactly `spacing` (squared: `spacing^2`) from its predecessor,
   * unless the entry's old value coincided with the predecessor; in that case,
   * with the engine's `normalize(0) == 0`, the entry lands on the predecessor.
   */
  lemma RelaxKeepsSpacing(s: seq<Vec>, normalize: Vec -> Vec, spacing: real, i: int)
    requires forall v :: v != Zero ==> Len2(normalize(v)) == 1.0
    requires 1 <= i < |s|
    ensures var r := Relax(s, normalize, spacing);
      r[i - 1] != s[i] ==> Len2(Sub(r[i - 1], r[i])) == spacing * spacing
    ensures var r := Relax(s, normalize, spacing);
      normalize(Zero) == Zero && r[i - 1] == s[i] ==> r[i] == r[i - 1]
  {
    RelaxAt(s, normalize, spacing, i);
    var r := Relax(s, normalize, spacing);
    BehindDistance(r[i - 1], normalize(Sub(r[i - 1], s[i])), spacing);
    if r[i - 1] != s[i] {
      assert Sub(r[i - 1], s[i]) != Zero;
    }
  }

  class Snake {
    /** Editor properties (defaults 200 and 40 in the script). */
    const moveSpeed: real
    const bodySpacing: real
    /** The manager found on the parent node, if any. */
    const gameManager: GameManagement.GameManager?

    /** Position of the snake's own node, the head. */
    var head: Vec
    var direction: Vec
    /** Positions of the body nodes; entry 0 is the head node itself. */
    var bodyNodes: seq<Vec>
    /** The position history the body is re-derived from. */
    var positions: seq<Vec>

    ghost predicate Valid()
      reads this
    {
      |positions| == |bodyNodes| &&
      (bodyNodes != [] ==> bodyNodes[0] == head) &&
      IsAxisUnit(direction)
    }

    /** The field initialisers; the head keeps its node's position. */
    constructor (head: Vec, moveSpeed: real, bodySpacing: real, gameManager: GameManagement.GameManager?)
      ensures Valid()
      ensures this.head == head && this.moveSpeed == moveSpeed && this.bodySpacing == bodySpacing
      ensures this.gameManager == gameManager
      ensures direction == Right && bodyNodes == [] && positions == []
    {
      this.head := head;
      this.moveSpeed := moveSpeed;
      this.bodySpacing := bodySpacing;
      this.gameManager := gameManager;
      direction := Right;
      bodyNodes, positions := [], [];
    }

    /** Registers the head node as the first body node and records its position. */
    method InitSnake()
      requires Valid()
      modifies this
      ensures Valid()
      ensures bodyNodes == old(bodyNodes) + [head] && positions == old(positions) + [head]
      ensures head == old(head) && direction == old(direction)
    {
      bodyNodes := bodyNodes + [head];
      positions := positions + [head];
    }

    /** A key-down event: the heading changes by the turn policy. */
    method OnKeyDown(k: Key)
      requires Valid()
      modifies this
      ensures Valid()
      ensures direction == Turn(old(direction), k)
      ensures head == old(head) && bodyNodes == old(bodyNodes) && positions == old(positions)
    {
      match k {
        case ArrowUp =>
          if direction.y != -1.0 { direction := Up; }
        case ArrowDown =>
          if direction.y != 1.0 { direction := Down; }
        case ArrowLeft =>
          if direction.x != 1.0 { direction := Left; }
        case ArrowRight =>
          if direction.x != -1.0 { direction := Right; }
        case OtherKey =>
      }
      TurnPolicy(old(direction), k);
    }

    /**
     * One frame of `dt` seconds: move the head by `direction * moveSpeed * dt`,
     * push it on the front of the history, relax the history, drop its last
     * entry, and move every body node after the head onto its history entry.
     */
    method Update(dt: real, normalize: Vec -> Vec)
      requires Valid()
      modifies this
      ensures Valid()
      ensures head == Add(old(head), Scale(direction, moveSpeed * dt))
      ensures positions == Relax([head] + old(positions), normalize, bodySpacing)[..|old(positions)|]
      ensures positions != [] ==> positions[0] == head
      ensures |bodyNodes| == |old(bodyNodes)| && bodyNodes == positions
      ensures direction == old(direction)
    {
      var newPos := Add(head, Scale(direction, moveSpeed * dt));
      head := newPos;
      if |bodyNodes| > 0 {
        bodyNodes := bodyNodes[0 := newPos];
      }
      positions := [newPos] + positions;
      RelaxPositions(normalize);
      if |positions| > |bodyNodes| {
        positions := positions[..|positions| - 1];
      }
      MoveBodyNodes();
    }

    /** The spacing loop of `update`, over the history just extended by the new head. */
    method RelaxPositions(normalize: Vec -> Vec)
      requires positions != []
      modifies this`positions
      ensures positions == Relax(old(positions), normalize, bodySpacing)
    {
      ghost var s := positions;
      var i := 1;
      while i < |positions|
        invariant 1 <= i <= |positions| == |s|
        invariant positions == Relax(s[..i], normalize, bodySpacing) + s[i..]
      {
        var currentPos := positions[i - 1];
        var dir := normalize(Sub(currentPos, positions[i]));
        RelaxExtend(s, normalize, bodySpacing, i);
        positions := positions[i := Sub(currentPos, Scale(dir, bodySpacing))];
        i := i + 1;
      }
      assert s[..|s|] == s;
    }

    /** The last loop of `update`: each body node after the head takes its history entry. */
    method MoveBodyNodes()
      requires |positions| == |bodyNodes|
      modifies this`bodyNodes
      ensures |bodyNodes| == |positions|
      ensures bodyNodes != [] ==> bodyNodes[0] == old(bodyNodes)[0]
      ensures bodyNodes == [] || bodyNodes[1..] == positions[1..]
    {
      if bodyNodes == [] {
        return;
      }
      var i := 1;
      while i < |bodyNodes|
        invariant 1 <= i <= |bodyNodes| == |positions|
        invariant bodyNodes[0] == old(bodyNodes)[0]
        invariant forall j :: 1 <= j < i ==> bodyNodes[j] == positions[j]
      {
        bodyNodes := bodyNodes[i := positions[i]];
        i := i + 1;
      }
    }

    /**
     * Appends one body node `bodySpacing` behind the last one, against the
     * heading, and records its position at the end of the history.
     */
    method Grow()
      requires Valid() && bodyNodes != []
      modifies this
      ensures Valid()
      ensures var added := Behind(old(bodyNodes)[|old(bodyNodes)| - 1], direction, bodySpacing);
        bodyNodes == old(bodyNodes) + [added] && positions == old(positions) + [added]
      ensures head == old(head) && direction == old(direction)
    {
      var lastBody := bodyNodes[|bodyNodes| - 1];
      var back := Neg(direction);
      var newPosition := Add(lastBody, Scale(back, bodySpacing));
      NegScale(direction, bodySpacing);
      bodyNodes := bodyNodes + [newPosition];
      positions := positions + [newPosition];
    }

    /**
     * A begin-contact with a node named `otherName`: food grows the snake and
     * scores, a body contact or being out of bounds ends the game, else nothing.
     */
    method OnCollision(otherName: string)
      requires Valid()
      requires otherName == FoodTag ==> bodyNodes != []
      requires gameManager != null ==> gameManager.Valid()
      modifies this, gameManager
      ensures Valid()
      ensures head == old(head) && direction == old(direction)
      ensures gameManager != null ==> gameManager.Valid()
      ensures Classify(otherName, OutOfBounds(head)) == GrowAndScore ==>
        var added := Behind(old(bodyNodes)[|old(bodyNodes)| - 1], direction, bodySpacing);
        bodyNodes == old(bodyNodes) + [added] && positions == old(positions) + [added]
      ensures Classify(otherName, OutOfBounds(head)) != GrowAndScore ==>
        bodyNodes == old(bodyNodes) && positions == old(positions)
      ensures gameManager != null ==>
        gameManager.snake == old(gameManager.snake) &&
        gameManager.eaten ==
          old(gameManager.eaten) + if Classify(otherName, OutOfBounds(head)) == GrowAndScore then 1 else 0
      ensures gameManager != null && Classify(otherName, OutOfBounds(head)) == GrowAndScore ==>
        gameManager.score == old(gameManager.score) + GameManagement.FoodScore &&
        gameManager.food == None && gameManager.respawnPending &&
        gameManager.isGameOver == old(gameManager.isGameOver)
      ensures gameManager != null && Classify(otherName, OutOfBounds(head)) == EndGame ==>
        gameManager.isGameOver && gameManager.score == old(gameManager.score) &&
        gameManager.food == old(gameManager.food) &&
        gameManager.respawnPending == old(gameManager.respawnPending)
      ensures gameManager != null && Classify(otherName, OutOfBounds(head)) == NoEffect ==>
        gameManager.isGameOver == old(gameManager.isGameOver) &&
        gameManager.score == old(gameManager.score) &&
        gameManager.food == old(gameManager.food) &&
        gameManager.respawnPending == old(gameManager.respawnPending)
    {
      if otherName == FoodTag {
        Grow();
        if gameManager != null {
          gameManager.AddScore();
        }
      } else if otherName == BodyTag || OutOfBounds(head) {
        if gameManager != null {
          gameManager.GameOver();
        }
      }
    }
  }
}
