/** The game session as a value: every player's tile, whose turn it is,
    whether someone has won, and whether the roll button accepts a click.
    A turn is one atomic step of this state machine. */
module Session {
  import opened Rules

  datatype State = State(
    positions: seq<int>,  // tile of each player, indexed by player number
    current: int,         // the player whose turn it is
    ended: bool,          // someone has reached the final tile
    rollEnabled: bool)    // the roll button is interactable

  /** The invariant every reachable session keeps: at least one player,
      the current player is one of them, every piece is on the board and
      never left on a snake head or a ladder foot, and the
      game has ended exactly when the current player stands on the final
      tile, in which case the roll button is off and nobody else is there. */
  ghost predicate Inv(s: State)
  {
    1 <= |s.positions| &&
    0 <= s.current < |s.positions| &&
    (forall j :: 0 <= j < |s.positions| ==> 0 <= s.positions[j] <= BoardSize) &&
    (forall j :: 0 <= j < |s.positions| ==>
       s.positions[j] !in Snakes && s.positions[j] !in Ladders) &&
    (s.ended ==> s.positions[s.current] == BoardSize && !s.rollEnabled) &&
    (forall j :: 0 <= j < |s.positions| && (!s.ended || j != s.current) ==>
       s.positions[j] < BoardSize)
  }

  /** `n` zeros: every player on the start tile. */
  function StartPositions(n: nat): (r: seq<int>)
    ensures |r| == n && forall j :: 0 <= j < n ==> r[j] == 0
  {
    seq(n, _ => 0)
  }

  /** The session right after the game starts with `n` players. */
  function Initial(n: nat): State
  {
    State(StartPositions(n), 0, false, true)
  }

  /** The current player's move (the turn once the game is known not to have
      ended): the piece moves to its landing tile; a landing on the final
      tile ends the game with the button off and the turn kept, any other
      landing passes the turn round-robin and turns the button back on. */
  function Move(s: State, steps: int): State
    requires 0 <= s.current < |s.positions|
  {
    var p := Land(s.positions[s.current], steps);
    var positions := s.positions[s.current := p];
    if p >= BoardSize then State(positions, s.current, true, false)
    else State(positions, NextPlayer(s.current, |s.positions|), s.ended, true)
  }

  /** The player after `current` in round-robin order. */
  function NextPlayer(current: int, n: int): (r: int)
    requires 0 <= current < n
    ensures 0 <= r < n
    ensures r == if current + 1 == n then 0 else current + 1
  {
    (current + 1) % n
  }

  /** A call of `RollDice` with die value `steps`: nothing happens once the
      game has ended, otherwise the button is turned off and the current
      player moves. */
  function Roll(s: State, steps: int): State
    requires 0 <= s.current < |s.positions|
  {
    if s.ended then s else Move(s.(rollEnabled := false), steps)
  }

  /** Restarting puts every piece back on the start tile and gives the turn
      to the first player; the roll button keeps whatever state it had. */
  function Restart(s: State): State
  {
    State(StartPositions(|s.positions|), 0, false, s.rollEnabled)
  }

  /** A fresh session with at least one player satisfies the invariant. */
  lemma InitialInv(n: nat)
    requires 1 <= n
    ensures Inv(Initial(n))
    ensures Initial(n).current == 0 && !Initial(n).ended && Initial(n).rollEnabled
    ensures forall j :: 0 <= j < n ==> Initial(n).positions[j] == 0
  {
  }

  /** A turn moves only the current player, who ends on the landing tile;
      every other player's tile is unchanged. */
  lemma RollMovesOnlyCurrent(s: State, steps: int)
    requires Inv(s) && !s.ended
    ensures |Roll(s, steps).positions| == |s.positions|
    ensures Roll(s, steps).positions[s.current] == Land(s.positions[s.current], steps)
    ensures forall j :: 0 <= j < |s.positions| && j != s.current ==>
              Roll(s, steps).positions[j] == s.positions[j]
  {
  }

  /** A turn either wins, which ends the game, turns the button off and keeps
      the turn with the winner, or passes the turn to the next player in
      round-robin order and turns the button back on. */
  lemma RollWinOrPass(s: State, steps: int)
    requires Inv(s) && !s.ended && 0 <= steps <= 6
    ensures var t := Roll(s, steps);
      if Land(s.positions[s.current], steps) == BoardSize
      then t.ended && !t.rollEnabled && t.current == s.current
      else !t.ended && t.rollEnabled && t.current == NextPlayer(s.current, |s.positions|)
  {
    LandInBounds(s.positions[s.current], steps);
  }

  /** A call while the die is still busy (value 0) moves nobody, passes the
      turn and turns the button back on. */
  lemma RollZeroOnlyPassesTurn(s: State)
    requires Inv(s) && !s.ended
    ensures Roll(s, 0).positions == s.positions
    ensures Roll(s, 0).current == NextPlayer(s.current, |s.positions|)
    ensures Roll(s, 0) == s.(current := NextPlayer(s.current, |s.positions|), rollEnabled := true)
  {
    RedirectSpec(s.positions[s.current]);
    assert MoveTarget(s.positions[s.current], 0, BoardSize) == s.positions[s.current];
  }

  /** Once the game has ended a call changes nothing. */
  lemma RollAfterEndIsNoOp(s: State, steps: int)
    requires 0 <= s.current < |s.positions| && s.ended
    ensures Roll(s, steps) == s
  {
  }

  /** Every turn with a die value from 0 to 6 keeps the invariant. */
  lemma RollKeepsInv(s: State, steps: int)
    requires Inv(s) && 0 <= steps <= 6
    ensures Inv(Roll(s, steps))
  {
    if !s.ended {
      LandInBounds(s.positions[s.current], steps);
      RedirectSpec(MoveTarget(s.positions[s.current], steps, BoardSize));
      var t := Roll(s, steps);
      assert t.current < |t.positions|;
    }
  }

  /** Restart puts every piece back on the start tile, gives the turn to the
      first player and clears the win; it leaves the roll button as it was,
      so a session restarted after a win keeps its button off. */
  lemma RestartInv(s: State)
    requires 1 <= |s.positions|
    ensures Inv(Restart(s))
    ensures Restart(s) == Initial(|s.positions|).(rollEnabled := s.rollEnabled)
    ensures Inv(s) && s.ended ==> !Restart(s).rollEnabled
  {
  }

  /** The session after the calls of `RollDice` with die values `rolls`. */
  function Play(s: State, rolls: seq<int>): (r: State)
    requires 0 <= s.current < |s.positions|
    ensures |r.positions| == |s.positions| && 0 <= r.current < |r.positions|
    decreases |rolls|
  {
    if rolls == [] then s
    else Play(Roll(s, rolls[0]), rolls[1..])
  }

  /** Every sequence of `RollDice` calls with die values from 0 to 6 keeps the
      invariant. */
  lemma {:induction false} PlayKeepsInv(s: State, rolls: seq<int>)
    requires Inv(s)
    requires forall k :: 0 <= k < |rolls| ==> 0 <= rolls[k] <= 6
    ensures Inv(Play(s, rolls))
    decreases |rolls|
  {
    if rolls != [] {
      RollKeepsInv(s, rolls[0]);
      PlayKeepsInv(Roll(s, rolls[0]), rolls[1..]);
    }
  }

  /** Turn order is strict round-robin: if nobody has won after `|rolls|`
      calls, the turn has passed exactly `|rolls|` times, so no player is
      skipped or repeated. */
  lemma {:induction false} PlayTurnOrder(s: State, rolls: seq<int>)
    requires 0 <= s.current < |s.positions|
    requires !Play(s, rolls).ended
    ensures Play(s, rolls).current == (s.current + |rolls|) % |s.positions|
    decreases |rolls|
  {
    if rolls == [] {
      ModIdentity(s.current, |s.positions|);
    } else {
      var t := Roll(s, rolls[0]);
      var rest := rolls[1..];
      if t.ended {
        PlayAfterEnd(t, rest);
        assert false;
      }
      PlayTurnOrder(t, rest);
      NextThenAdvance(s.current, t.current, |rest|, |rolls|, |s.positions|);
    }
  }

  /** Once ended, a session stays unchanged, whatever the calls. */
  lemma {:induction false} PlayAfterEnd(s: State, rolls: seq<int>)
    requires 0 <= s.current < |s.positions| && s.ended
    ensures Play(s, rolls) == s
    decreases |rolls|
  {
    if rolls != [] {
      PlayAfterEnd(Roll(s, rolls[0]), rolls[1..]);
    }
  }

  /** A press of the roll button: a button that is not interactable delivers
      no click, otherwise the press calls `RollDice`. */
  function Click(s: State, steps: int): State
    requires 0 <= s.current < |s.positions|
  {
    if s.rollEnabled then Roll(s, steps) else s
  }

  /** The session after the presses `rolls`, one die value each. */
  function Clicks(s: State, rolls: seq<int>): (r: State)
    requires 0 <= s.current < |s.positions|
    ensures |r.positions| == |s.positions| && 0 <= r.current < |r.positions|
    decreases |rolls|
  {
    if rolls == [] then s
    else Clicks(Click(s, rolls[0]), rolls[1..])
  }

  /** A disabled button ignores every press: the session does not change. */
  lemma {:induction false} ClicksWhileDisabled(s: State, rolls: seq<int>)
    requires 0 <= s.current < |s.positions| && !s.rollEnabled
    ensures Clicks(s, rolls) == s
    decreases |rolls|
  {
    if rolls != [] {
      ClicksWhileDisabled(s, rolls[1..]);
    }
  }

  /** A game restarted after a win is stuck: it has not ended, but its button
      stays off, so no press moves anyone or passes the turn. */
  lemma RestartAfterWinIsStuck(s: State, rolls: seq<int>)
    requires Inv(s) && s.ended
    ensures Inv(Restart(s)) && !Restart(s).ended && !Restart(s).rollEnabled
    ensures Clicks(Restart(s), rolls) == Restart(s)
  {
    RestartInv(s);
    ClicksWhileDisabled(Restart(s), rolls);
  }

  /** While the button is on (or the game has ended), every press is a call
      of `RollDice`: the presses give the same session as the calls. A call
      that does not end the game turns the button back on. */
  lemma {:induction false} ClicksAreCalls(s: State, rolls: seq<int>)
    requires 0 <= s.current < |s.positions| && (s.rollEnabled || s.ended)
    ensures Clicks(s, rolls) == Play(s, rolls)
    decreases |rolls|
  {
    if rolls != [] {
      var t := Roll(s, rolls[0]);
      assert Click(s, rolls[0]) == t;
      ClicksAreCalls(t, rolls[1..]);
    }
  }

  /** Starting with the button on, presses follow strict round-robin: if
      nobody has won after `|rolls|` presses, the turn has passed exactly
      `|rolls|` times. */
  lemma ClickTurnOrder(s: State, rolls: seq<int>)
    requires 0 <= s.current < |s.positions| && s.rollEnabled
    requires !Clicks(s, rolls).ended
    ensures Clicks(s, rolls).current == (s.current + |rolls|) % |s.positions|
  {
    ClicksAreCalls(s, rolls);
    PlayTurnOrder(s, rolls);
  }

  // The turn as written when the player count is a field of its own: the
  // menu may set it after the positions array was sized, and the turn is
  // then passed modulo that count rather than modulo the array length.

  /** The current player's move with the turn passed modulo `playerCount`. */
  function MoveWithCount(s: State, playerCount: int, steps: int): State
    requires 0 <= s.current < |s.positions| && 0 < playerCount
  {
    var p := Land(s.positions[s.current], steps);
    var positions := s.positions[s.current := p];
    if p >= BoardSize then State(positions, s.current, true, false)
    else State(positions, (s.current + 1) % playerCount, s.ended, true)
  }

  /** With a player count larger than the array, the last slot's player
      passes the turn to a player with no slot: the next turn reads past the
      end of the positions array. */
  lemma StalePlayerCountOverruns(s: State, playerCount: int, steps: int)
    requires 0 <= s.current < |s.positions| < playerCount
    requires s.current == |s.positions| - 1
    requires Land(s.positions[s.current], steps) < BoardSize
    ensures MoveWithCount(s, playerCount, steps).current == |s.positions|
    ensures |MoveWithCount(s, playerCount, steps).positions| == |s.positions|
  {
    ModIdentity(|s.positions|, playerCount);
  }

  /** Two slots (the default count at scene load), three players chosen in
      the menu: player 1 climbs the ladder on tile 1 and hands the turn to
      player 2, who has no slot. */
  lemma StalePlayerCountExample()
    ensures var t := MoveWithCount(State([0, 0], 1, false, false), 3, 1);
      t.positions == [0, 38] && t.current == 2 && !t.ended && t.rollEnabled
  {
  }

  /** When the player count is the array length, as in this model, the move
      as written is `Move`, and the turn always stays on a player with a
      slot. */
  lemma MoveWithCountAgrees(s: State, steps: int)
    requires 0 <= s.current < |s.positions|
    ensures MoveWithCount(s, |s.positions|, steps) == Move(s, steps)
    ensures 0 <= Move(s, steps).current < |Move(s, steps).positions|
  {
  }

  // Arithmetic facts about the round-robin turn counter.

  lemma ModIdentity(x: int, n: int)
    requires 0 <= x < n
    ensures x % n == x
  {
    ModUnique(x, 0, x, n);
  }

  /** Passing the turn once and then `k` more times passes it `k + 1` times. */
  lemma NextThenAdvance(c: int, next: int, k: int, m: int, n: int)
    requires 0 <= c < n && next == NextPlayer(c, n) && m == k + 1
    ensures (next + k) % n == (c + m) % n
  {
    ModAddLeft(c + 1, k, n);
  }

  /** Adding after reducing modulo `n` is the same as adding first. */
  lemma ModAddLeft(x: int, k: int, n: int)
    requires 0 < n
    ensures (x % n + k) % n == (x + k) % n
  {
    var y := x % n + k;
    var q := x / n;
    DivMod(y, n);
    ModUnique(x + k, q + y / n, y % n, n);
  }

  lemma DivMod(z: int, n: int)
    requires 0 < n
    ensures z == (z / n) * n + z % n && 0 <= z % n < n
  {
  }

  /** Division and remainder are the unique quotient and remainder. */
  lemma ModUnique(z: int, d: int, r: int, n: int)
    requires 0 < n && 0 <= r < n && z == d * n + r
    ensures z % n == r
  {
    var e := z / n - d;
    assert e * n == (z / n) * n - d * n;
    assert e * n == r - z % n;
  }
}
