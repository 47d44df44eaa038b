/** The game-flow controller: the session state kept in fields and updated
    in place by a call of `RollDice` (the roll button's listener), the end
    of the game and a restart. `RollDice`, `MovePlayer` and `RestartGame` are proved equal to
    `Session.Roll`, `Session.Move` and `Session.Restart`; `InitializeGame`
    and `EndGame` state their new fields directly. */
module Game {
  import opened Rules
  import Session

  class GameManager {
    const numberOfPlayers: nat
    var playerPositions: array<int>
    var currentPlayer: int
    var gameEnded: bool
    var rollEnabled: bool  // whether the roll button is interactable

    /** The session these fields hold. */
    ghost function Snapshot(): Session.State
      reads this, playerPositions
    {
      Session.State(playerPositions[..], currentPlayer, gameEnded, rollEnabled)
    }

    ghost predicate Valid()
      reads this, playerPositions
    {
      playerPositions.Length == numberOfPlayers && Session.Inv(Snapshot())
    }

    /** Start: the game begins with every piece on the start tile, the first
        player to move and the roll button on. */
    constructor (numberOfPlayers: nat)
      requires 1 <= numberOfPlayers
      ensures Valid() && fresh(playerPositions)
      ensures this.numberOfPlayers == numberOfPlayers
      ensures Snapshot() == Session.Initial(numberOfPlayers)
    {
      this.numberOfPlayers := numberOfPlayers;
      currentPlayer := 0;
      gameEnded := false;
      rollEnabled := true;
      playerPositions := new int[0];
      new;
      InitializeGame();
      Session.InitialInv(numberOfPlayers);
    }

    /** Allocates one position per player and puts each on the start tile;
        nothing else changes. */
    method InitializeGame()
      modifies this
      ensures fresh(playerPositions) && playerPositions.Length == numberOfPlayers
      ensures playerPositions[..] == Session.StartPositions(numberOfPlayers)
      ensures currentPlayer == old(currentPlayer) && gameEnded == old(gameEnded)
      ensures rollEnabled == old(rollEnabled)
    {
      playerPositions := new int[numberOfPlayers];
      for i := 0 to numberOfPlayers
        modifies playerPositions
        invariant forall j :: 0 <= j < i ==> playerPositions[j] == 0
      {
        playerPositions[i] := 0;
      }
    }

    /** The roll button's listener, called with the die value `diceValue`;
        the button delivers a press only while it is interactable. A value
        of 0 stands for the die being busy with a previous roll. Once the
        game has ended nothing changes. */
    method RollDice(diceValue: int)
      requires Valid() && 0 <= diceValue <= 6
      modifies this, playerPositions
      ensures Valid() && playerPositions == old(playerPositions)
      ensures Snapshot() == Session.Roll(old(Snapshot()), diceValue)
    {
      Session.RollKeepsInv(Snapshot(), diceValue);
      if gameEnded {
        return;
      }
      rollEnabled := false;
      MovePlayer(diceValue);
    }

    /** The current player's move: step, bounce back from the final tile,
        follow at most one snake or ladder, then either win or pass the
        turn. */
    method MovePlayer(steps: int)
      requires playerPositions.Length == numberOfPlayers
      requires 0 <= currentPlayer < numberOfPlayers
      modifies this, playerPositions
      ensures playerPositions == old(playerPositions)
      ensures Snapshot() == Session.Move(old(Snapshot()), steps)
    {
      var newPosition := playerPositions[currentPlayer] + steps;
      if newPosition > BoardSize {
        newPosition := BoardSize - (newPosition - BoardSize);
      }
      playerPositions[currentPlayer] := newPosition;
      ghost var landed := newPosition;
      assert landed == MoveTarget(old(playerPositions[currentPlayer]), steps, BoardSize);

      if newPosition in Snakes {
        newPosition := Snakes[newPosition];
        playerPositions[currentPlayer] := newPosition;
      } else if newPosition in Ladders {
        newPosition := Ladders[newPosition];
        playerPositions[currentPlayer] := newPosition;
      }
      assert newPosition == Redirect(landed);
      assert playerPositions[..] == old(playerPositions[..])[currentPlayer := newPosition];

      if playerPositions[currentPlayer] >= BoardSize {
        EndGame();
        return;
      }

      currentPlayer := (currentPlayer + 1) % numberOfPlayers;
      rollEnabled := true;
    }

    /** The current player has won: the game is over and the roll button is
        turned off; whose turn it is does not change. */
    method EndGame()
      modifies this
      ensures gameEnded && !rollEnabled
      ensures currentPlayer == old(currentPlayer) && playerPositions == old(playerPositions)
    {
      gameEnded := true;
      rollEnabled := false;
    }

    /** Clears the win, gives the turn to the first player and puts every
        piece back on the start tile; the roll button is left as it was. */
    method RestartGame()
      requires Valid()
      modifies this
      ensures Valid() && fresh(playerPositions)
      ensures Snapshot() == Session.Restart(old(Snapshot()))
    {
      gameEnded := false;
      currentPlayer := 0;
      InitializeGame();
      Session.RestartInv(old(Snapshot()));
    }
  }
}
