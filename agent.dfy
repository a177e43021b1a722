/** The agents of the `tictactoe` package. An agent is handed a board in which it
    plays X and returns an action board: zeros except a 1 on the cell it marks.
    Only the random agent's source is part of this model. */
module Agents {
  import opened Wrappers
  import opened Grid
  import opened States

  /** The agents whose `act` is modelled. */
  datatype Agent = RandomAgent

  /** The contract of the abstract `Agent.act`, as the callers rely on it: the
      action is the one-hot X on some empty cell of the state. */
  predicate LegalAction(x: Cells, action: Cells)
  {
    exists k :: 0 <= k < 9 && x[k] == 0 && action == OneHot(k, 1)
  }

  /** A legal action has exactly one nonzero cell, that cell holds 1 and is empty
      in the state; and every empty cell gives a legal action. */
  lemma LegalActionShape(x: Cells, action: Cells, k: nat)
    requires k < 9
    ensures LegalAction(x, action) && action[k] != 0 ==>
      action[k] == 1 && x[k] == 0 && forall i :: 0 <= i < 9 && i != k ==> action[i] == 0
    ensures x[k] == 0 ==> LegalAction(x, OneHot(k, 1))
  {
    if LegalAction(x, action) && action[k] != 0 {
      var j :| 0 <= j < 9 && x[j] == 0 && action == OneHot(j, 1);
      assert action[j] == 1;
    }
    if x[k] == 0 {
      assert OneHot(k, 1) == OneHot(k, 1);
    }
  }

  /** `RandomAgent.act`: `ValueError` when no cell is empty; otherwise a one-hot X
      on an empty cell picked by `np.random.choice`, built with `agent_is_x=True` so
      that it is not swapped. The pick is left open: any empty cell may come out. */
  method Act(agent: Agent, gameState: Board) returns (r: Result<Board, Error>)
    ensures r.Err? <==> IsFull(gameState.cells)
    ensures r.Err? ==> r.error == NoPossibleActions
    ensures r.Ok? ==> LegalAction(gameState.cells, r.value.cells)
  {
    var x := gameState.cells;
    var emptyCoordinates := EmptyCells(x);
    FullIffNoEmptyCell(x);
    if |emptyCoordinates| == 0 {
      return Err(NoPossibleActions);
    }
    var choice :| 0 <= choice < |emptyCoordinates|;
    var k := emptyCoordinates[choice];
    var action := new int[9](_ => 0);
    action[k] := 1;
    assert action[..] == OneHot(k, 1);
    r := NewBoard(action[..], true);
  }
}
