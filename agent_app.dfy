/** `get_agent_action` of the agent service: the caller's board is read in the
    agent's own view, the random agent acts, and its action is put back into the
    caller's symbols. */
module AgentApp {
  import opened Wrappers
  import opened Grid
  import opened States
  import opened Agents

  /** The JSON object the function reads: the schema requires the symbol list;
      `agent_is_x` may be absent. */
  datatype GameStateJson = GameStateJson(state: seq<char>, agentIsX: Option<bool>)

  /** The text of an action that marks cell `k` with `symbol` and nothing else. */
  function MarkedText(k: nat, symbol: char): (t: seq<char>)
    requires k < 9
    ensures |t| == 9 && t[k] == symbol && forall i :: 0 <= i < 9 && i != k ==> t[i] == '-'
  {
    seq(9, i requires 0 <= i < 9 => if i == k then symbol else '-')
  }

  /** Whichever way round the board is read, its empty cells are the `-` symbols. */
  lemma ViewKeepsEmptyCells(t: seq<char>, agentIsX: bool)
    requires WellFormedText(t)
    ensures forall i :: 0 <= i < 9 ==> (FromTextBoard(t, agentIsX).value.cells[i] == 0 <==> t[i] == '-')
  {
    var b := FromTextBoard(t, true).value;
    TextRoundTrips(b, t);
    SwapProperties(b.cells);
    forall i | 0 <= i < 9 ensures b.cells[i] == 0 <==> t[i] == '-' {
      assert Text(b.cells)[i] == t[i];
    }
  }

  /** The agent's one-hot X on cell `k`, put back into the caller's symbols, reads
      as that cell marked with the caller's symbol. */
  lemma ActionText(result: Board, k: nat, agentIsX: bool)
    requires k < 9
    requires result.cells == (if agentIsX then OneHot(k, 1) else OneHot(k, 2))
    ensures TextBoard(result) == MarkedText(k, if agentIsX then 'X' else 'O')
  {
    assert forall i :: 0 <= i < 9 ==> TextBoard(result)[i] == MarkedText(k, if agentIsX then 'X' else 'O')[i];
  }

  /** `get_agent_action`. Indexing a missing `agent_is_x` raises `KeyError` before
      the board is read; a malformed symbol list raises `ValueError`, and so does a
      board without an empty cell, from `act`. Otherwise the action marks exactly
      one cell that is empty in the caller's board, with the caller's symbol. */
  method GetAgentAction(gameState: GameStateJson) returns (r: Result<Board, Error>)
    ensures gameState.agentIsX.None? ==> r == Err(MissingAgentIsX)
    ensures gameState.agentIsX.Some? && !WellFormedText(gameState.state) ==> r == Err(InvalidBoard)
    ensures gameState.agentIsX.Some? && WellFormedText(gameState.state) ==>
      (r.Err? <==> forall i :: 0 <= i < 9 ==> gameState.state[i] != '-') &&
      (r.Err? ==> r.error == NoPossibleActions)
    ensures r.Ok? ==> gameState.agentIsX.Some?
    ensures r.Ok? ==>
      exists k :: 0 <= k < 9 && gameState.state[k] == '-' &&
        TextBoard(r.value) == MarkedText(k, if gameState.agentIsX.value then 'X' else 'O')
  {
    if gameState.agentIsX.None? {
      return Err(MissingAgentIsX);
    }
    var agentIsX := gameState.agentIsX.value;
    var gameBoard := FromTextBoard(gameState.state, agentIsX);
    if gameBoard.Err? {
      return Err(gameBoard.error);
    }
    var x := gameBoard.value.cells;
    ViewKeepsEmptyCells(gameState.state, agentIsX);
    var action := Act(RandomAgent, gameBoard.value);
    if action.Err? {
      return action;
    }
    var k :| 0 <= k < 9 && x[k] == 0 && action.value.cells == OneHot(k, 1);
    var result := action.value;
    if !agentIsX {
      result := SwapSymbols(result);
      assert forall i :: 0 <= i < 9 ==> result.cells[i] == OneHot(k, 2)[i];
    }
    ActionText(result, k, agentIsX);
    return Ok(result);
  }
}
