/** The board builder: fills the tile array slot by slot along the
    serpentine path and then places one segment per snake and per ladder
    between the tiles of its two ends. */
module Board {
  import opened Layout
  import Rules

  /** Snake ends as the board lists them, head first. */
  const SnakeEnds: seq<(int, int)> := [
    (99, 78), (95, 75), (92, 88), (87, 24), (64, 60),
    (62, 19), (56, 53), (49, 11), (47, 26), (16, 6)]

  /** Ladder ends as the board lists them, bottom first. */
  const LadderEnds: seq<(int, int)> := [
    (1, 38), (4, 14), (9, 31), (21, 42), (28, 84),
    (36, 44), (51, 67), (71, 91), (80, 100)]

  /** A snake or ladder drawn from the tile of its first end to the tile of
      its second. */
  datatype Segment = Segment(from: Tile, to: Tile)

  /** Every end in `ends` indexes an array of `size` tiles. */
  ghost predicate OnBoard(ends: seq<(int, int)>, size: int)
  {
    forall k :: 0 <= k < |ends| ==> 0 <= ends[k].0 < size && 0 <= ends[k].1 < size
  }

  /** The segments for `ends` on the board `tiles`, in the order listed. */
  function Segments(tiles: seq<Tile>, ends: seq<(int, int)>): (r: seq<Segment>)
    requires OnBoard(ends, |tiles|)
    ensures |r| == |ends|
    ensures forall k :: 0 <= k < |ends| ==> r[k] == Segment(tiles[ends[k].0], tiles[ends[k].1])
  {
    seq(|ends|, k requires 0 <= k < |ends| => Segment(tiles[ends[k].0], tiles[ends[k].1]))
  }

  /** Every end is a tile of a 100-tile board, every snake's head is above its
      tail and every ladder's bottom below its top. */
  lemma EndsInRange()
    ensures forall k :: 0 <= k < |SnakeEnds| ==> 0 <= SnakeEnds[k].1 < SnakeEnds[k].0 <= 100
    ensures forall k :: 0 <= k < |LadderEnds| ==> 0 <= LadderEnds[k].0 < LadderEnds[k].1 <= 100
  {
  }

  /** The snakes drawn on the board are exactly the snake table the game
      moves pieces by: each listed pair is an entry of the table, and every
      head in the table is listed. */
  lemma SnakeEndsMatchRules()
    ensures forall k :: 0 <= k < |SnakeEnds| ==>
              SnakeEnds[k].0 in Rules.Snakes && Rules.Snakes[SnakeEnds[k].0] == SnakeEnds[k].1
    ensures (set k | 0 <= k < |SnakeEnds| :: SnakeEnds[k].0) == Rules.Snakes.Keys
  {
    var heads := set k | 0 <= k < |SnakeEnds| :: SnakeEnds[k].0;
    forall t | t in heads ensures t in Rules.Snakes {
      var k :| 0 <= k < |SnakeEnds| && t == SnakeEnds[k].0;
      assert k in {0, 1, 2, 3, 4, 5, 6, 7, 8, 9};
    }
    forall t | t in Rules.Snakes ensures t in heads {
      assert t in {99, 95, 92, 87, 64, 62, 56, 49, 47, 16};
      var k := if t == 99 then 0 else if t == 95 then 1 else if t == 92 then 2
        else if t == 87 then 3 else if t == 64 then 4 else if t == 62 then 5
        else if t == 56 then 6 else if t == 49 then 7 else if t == 47 then 8 else 9;
      assert SnakeEnds[k].0 == t;
    }
  }

  /** The ladders drawn on the board are exactly the ladder table the game
      moves pieces by: each listed pair is an entry of the table, and every
      foot in the table is listed. */
  lemma LadderEndsMatchRules()
    ensures forall k :: 0 <= k < |LadderEnds| ==>
              LadderEnds[k].0 in Rules.Ladders && Rules.Ladders[LadderEnds[k].0] == LadderEnds[k].1
    ensures (set k | 0 <= k < |LadderEnds| :: LadderEnds[k].0) == Rules.Ladders.Keys
  {
    var bottoms := set k | 0 <= k < |LadderEnds| :: LadderEnds[k].0;
    forall t | t in bottoms ensures t in Rules.Ladders {
      var k :| 0 <= k < |LadderEnds| && t == LadderEnds[k].0;
      assert k in {0, 1, 2, 3, 4, 5, 6, 7, 8};
    }
    forall t | t in Rules.Ladders ensures t in bottoms {
      assert t in {1, 4, 9, 21, 28, 36, 51, 71, 80};
      var k := if t == 1 then 0 else if t == 4 then 1 else if t == 9 then 2
        else if t == 21 then 3 else if t == 28 then 4 else if t == 36 then 5
        else if t == 51 then 6 else if t == 71 then 7 else 8;
      assert LadderEnds[k].0 == t;
    }
  }

  class BoardGenerator {
    const boardSize: int
    var tilePositions: array<Tile>
    var placedSnakes: seq<Segment>
    var placedLadders: seq<Segment>

    /** Start: builds the board and then places the snakes and ladders. The
        ladder to tile 100 needs a board of at least 100 tiles. */
    constructor (boardSize: int)
      requires 100 <= boardSize
      ensures this.boardSize == boardSize
      ensures tilePositions.Length == boardSize + 1 && tilePositions[0] == StartTile
      ensures forall i :: 1 <= i <= boardSize ==> tilePositions[i] == TileAt(i)
      ensures placedSnakes == Segments(tilePositions[..], SnakeEnds)
      ensures placedLadders == Segments(tilePositions[..], LadderEnds)
    {
      this.boardSize := boardSize;
      tilePositions := new Tile[0];
      placedSnakes, placedLadders := [], [];
      new;
      GenerateBoard();
      PlaceSnakesAndLadders();
    }

    /** Allocates `boardSize + 1` slots, puts tile `i` in slot `i` for every
        numbered tile and the start tile in slot 0. */
    method GenerateBoard()
      requires 0 <= boardSize
      modifies this
      ensures fresh(tilePositions) && tilePositions.Length == boardSize + 1
      ensures tilePositions[0] == StartTile
      ensures forall i :: 1 <= i <= boardSize ==> tilePositions[i] == TileAt(i)
      ensures placedSnakes == old(placedSnakes) && placedLadders == old(placedLadders)
    {
      tilePositions := new Tile[boardSize + 1];
      var leftToRight := true;
      for i := 1 to boardSize + 1
        modifies tilePositions
        invariant leftToRight == (Row(i) % 2 == 0)
        invariant forall j :: 1 <= j < i ==> tilePositions[j] == TileAt(j)
      {
        var row := (i - 1) / TilesPerRow;
        var col := (i - 1) % TilesPerRow;
        if !leftToRight {
          col := TilesPerRow - 1 - col;
        }
        tilePositions[i] := Tile(row, col, if (row + col) % 2 == 0 then Light else Dark);
        ConsecutiveAdjacent(i);
        if i % TilesPerRow == 0 {
          leftToRight := !leftToRight;
        }
      }
      tilePositions[0] := StartTile;
    }

    /** Appends one segment per snake and one per ladder, each between the
        tiles of its two ends; the tiles themselves are not changed. */
    method PlaceSnakesAndLadders()
      requires 100 < tilePositions.Length
      modifies this
      ensures tilePositions == old(tilePositions)
      ensures placedSnakes == old(placedSnakes) + Segments(tilePositions[..], SnakeEnds)
      ensures placedLadders == old(placedLadders) + Segments(tilePositions[..], LadderEnds)
    {
      EndsInRange();
      ghost var tiles := tilePositions[..];
      ghost var before := placedSnakes;
      for i := 0 to |SnakeEnds|
        invariant tilePositions == old(tilePositions) && placedLadders == old(placedLadders)
        invariant |placedSnakes| == |before| + i && placedSnakes[..|before|] == before
        invariant forall k :: 0 <= k < i ==>
                    placedSnakes[|before| + k] == Segment(tiles[SnakeEnds[k].0], tiles[SnakeEnds[k].1])
      {
        var (head, tail) := SnakeEnds[i];
        placedSnakes := placedSnakes + [Segment(tilePositions[head], tilePositions[tail])];
      }
      assert placedSnakes == before + Segments(tiles, SnakeEnds);
      before := placedLadders;
      for i := 0 to |LadderEnds|
        invariant tilePositions == old(tilePositions) && placedSnakes == old(placedSnakes) + Segments(tiles, SnakeEnds)
        invariant |placedLadders| == |before| + i && placedLadders[..|before|] == before
        invariant forall k :: 0 <= k < i ==>
                    placedLadders[|before| + k] == Segment(tiles[LadderEnds[k].0], tiles[LadderEnds[k].1])
      {
        var (bottom, top) := LadderEnds[i];
        placedLadders := placedLadders + [Segment(tilePositions[bottom], tilePositions[top])];
      }
      assert placedLadders == before + Segments(tiles, LadderEnds);
    }
  }
}
