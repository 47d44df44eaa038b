/** The rules a single move follows on the 100-tile board: the reflected
    move by the die value, the snake and ladder tables, and the one redirect
    a landing tile may cause. */
module Rules {

  /** The final tile; reaching it wins. */
  const BoardSize: int := 100

  /** Snake heads mapped to their tails. */
  const Snakes: map<int, int> := map[
    99 := 78, 95 := 75, 92 := 88, 87 := 24, 64 := 60,
    62 := 19, 56 := 53, 49 := 11, 47 := 26, 16 := 6]

  /** Ladder feet mapped to their tops. */
  const Ladders: map<int, int> := map[
    1 := 38, 4 := 14, 9 := 31, 21 := 42, 28 := 84,
    36 := 44, 51 := 67, 71 := 91, 80 := 100]

  /** No tile is both a snake head and a ladder foot. */
  lemma TablesDisjoint()
    ensures forall t :: t in Snakes ==> t !in Ladders
  {
  }

  /** Every snake goes down and every ladder goes up, and every endpoint is a
      numbered tile of the board. */
  lemma TablesDirection()
    ensures forall t :: t in Snakes ==> 1 <= Snakes[t] < t <= BoardSize
    ensures forall t :: t in Ladders ==> 1 <= t < Ladders[t] <= BoardSize
  {
  }

  /** No redirect ends on a snake head or a ladder foot, so a single redirect
      is final. */
  lemma TargetsAreNotKeys()
    ensures forall t :: t in Snakes ==> Snakes[t] !in Snakes && Snakes[t] !in Ladders
    ensures forall t :: t in Ladders ==> Ladders[t] !in Snakes && Ladders[t] !in Ladders
  {
    SnakeTargetsAreNotKeys();
    LadderTargetsAreNotKeys();
  }

  lemma SnakeTargetsAreNotKeys()
    ensures forall t :: t in Snakes ==> Snakes[t] !in Snakes && Snakes[t] !in Ladders
  {
    forall t | t in Snakes
      ensures Snakes[t] !in Snakes && Snakes[t] !in Ladders
    {
      assert t in {99, 95, 92, 87, 64, 62, 56, 49, 47, 16};
    }
  }

  lemma LadderTargetsAreNotKeys()
    ensures forall t :: t in Ladders ==> Ladders[t] !in Snakes && Ladders[t] !in Ladders
  {
    forall t | t in Ladders
      ensures Ladders[t] !in Snakes && Ladders[t] !in Ladders
    {
      assert t in {1, 4, 9, 21, 28, 36, 51, 71, 80};
    }
  }

  function Abs(x: int): nat
  {
    if x < 0 then -x else x
  }

  /** The tile reached by moving `steps` from `position` before any snake or
      ladder: a move that would pass the final tile bounces back from it by
      the overshoot. */
  function MoveTarget(position: int, steps: int, boardSize: int): (r: int)
    ensures position + steps <= boardSize ==> r == position + steps
    ensures boardSize - r == Abs(position + steps - boardSize)
  {
    var sum := position + steps;
    if sum > boardSize then boardSize - (sum - boardSize) else sum
  }

  /** The tile a piece ends on after landing on `tile`: the snake's tail on a
      snake head, otherwise the ladder's top on a ladder foot, otherwise the
      tile itself. */
  function Redirect(tile: int): int
  {
    if tile in Snakes then Snakes[tile]
    else if tile in Ladders then Ladders[tile]
    else tile
  }

  /** A redirect follows the snake on a snake head and the ladder on a ladder
      foot and leaves every other tile alone; it goes down exactly on snake
      heads, up exactly on ladder feet, and never ends on either. */
  lemma RedirectSpec(tile: int)
    ensures tile in Snakes ==> Redirect(tile) == Snakes[tile]
    ensures tile in Ladders ==> Redirect(tile) == Ladders[tile]
    ensures tile !in Snakes && tile !in Ladders ==> Redirect(tile) == tile
    ensures Redirect(tile) < tile <==> tile in Snakes
    ensures Redirect(tile) > tile <==> tile in Ladders
    ensures Redirect(tile) !in Snakes && Redirect(tile) !in Ladders
  {
    TablesDisjoint();
    TablesDirection();
    TargetsAreNotKeys();
  }

  /** The tile a piece on `position` ends a turn on after rolling `steps`. */
  function Land(position: int, steps: int): int
  {
    Redirect(MoveTarget(position, steps, BoardSize))
  }

  /** At most one redirect happens: redirecting again changes nothing. */
  lemma RedirectIdempotent(tile: int)
    ensures Redirect(Redirect(tile)) == Redirect(tile)
  {
    RedirectSpec(tile);
  }

  /** From a tile before the final one, a roll of 1 to 6 lands on a numbered
      tile; a roll of 0 (the die was still rolling) leaves the piece where
      it is, apart from the redirect of the tile it stands on. */
  lemma LandInBounds(position: int, steps: int)
    requires 0 <= position < BoardSize && 0 <= steps <= 6
    ensures 1 <= steps ==> 1 <= Land(position, steps) <= BoardSize
    ensures 0 <= Land(position, steps) <= BoardSize
    ensures steps == 0 ==> Land(position, steps) == Redirect(position)
  {
    var m := MoveTarget(position, steps, BoardSize);
    assert position <= m <= BoardSize || BoardSize - 6 <= m <= BoardSize;
    TablesDirection();
  }

  /** A turn reaches the final tile exactly when the move lands on it or on
      the foot of the ladder that leads to it; nothing lands beyond it. */
  lemma WinningLandings(position: int, steps: int)
    requires 0 <= position < BoardSize && 0 <= steps <= 6
    ensures Land(position, steps) >= BoardSize <==> Land(position, steps) == BoardSize
    ensures Land(position, steps) == BoardSize <==>
              MoveTarget(position, steps, BoardSize) in {80, BoardSize}
  {
    LandInBounds(position, steps);
    TablesDirection();
  }

  /** Tile 95 with a roll of 4 reaches 99, a snake head, and ends on 78. */
  lemma SnakeAt99Example()
    ensures MoveTarget(95, 4, BoardSize) == 99 && Land(95, 4) == 78
  {
  }

  /** Overshooting bounces back: 97 with a roll of 5 ends on 98. */
  lemma BounceExample()
    ensures MoveTarget(97, 5, BoardSize) == 98 && Land(97, 5) == 98
  {
  }
}
