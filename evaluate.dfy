/** Self-play between two agents (`evaluate_game`) and the tally over many games
    (`evaluate`). */
module Evaluate {
  import opened Wrappers
  import opened Grid
  import opened States
  import opened Agents

  /** `StepData`: who moved, the board before and after in real symbols (X = agent
      0), the action as the mover returned it, and the reward (1.0 or 0.0). */
  datatype StepData = StepData(agentId: nat, state: Board, resultantState: Board, action: Board, reward: int)

  /** Step `s` is a legal move of its agent: the agent marked an empty cell of the
      state in its own view (as X), that mark became its real symbol
      (`agentId + 1`) on the board, and the reward is 1 exactly when the mover has
      won the resultant board. */
  predicate LegalStep(s: StepData)
  {
    s.agentId < 2 &&
    (exists k :: 0 <= k < 9 && s.state.cells[k] == 0 && s.action.cells == OneHot(k, 1) &&
       s.resultantState.cells == Place(s.state.cells, k, s.agentId + 1)) &&
    s.reward == (if Winner(s.resultantState.cells) == s.agentId + 1 then 1 else 0)
  }

  /** The steps so far of a game: agents alternate from agent 0 on the empty board,
      each step is legal and starts where the previous one ended, and none of them
      ended the game. */
  predicate UnfinishedEpisode(ep: seq<StepData>)
  {
    (ep != [] ==> ep[0].state.cells == EmptyCellsBoard) &&
    (forall k :: 0 <= k < |ep| ==> ep[k].agentId == k % 2 && LegalStep(ep[k])) &&
    (forall k :: 0 <= k < |ep| - 1 ==> ep[k + 1].state == ep[k].resultantState) &&
    (forall k :: 0 <= k < |ep| ==> !GameOver(ep[k].resultantState.cells))
  }

  /** A whole game as `evaluate_game` reports it: an unfinished episode followed by
      one last legal step that ends the game, with `winner` the winner of the final
      board (0 for a tie); at most nine steps. */
  predicate ValidEpisode(ep: seq<StepData>, winner: int)
  {
    1 <= |ep| <= 9 &&
    UnfinishedEpisode(ep[..|ep| - 1]) &&
    ep[0].state.cells == EmptyCellsBoard &&
    ep[|ep| - 1].agentId == (|ep| - 1) % 2 && LegalStep(ep[|ep| - 1]) &&
    (|ep| > 1 ==> ep[|ep| - 1].state == ep[|ep| - 2].resultantState) &&
    GameOver(ep[|ep| - 1].resultantState.cells) &&
    winner == Winner(ep[|ep| - 1].resultantState.cells)
  }

  /** The board the next step of an unfinished episode starts from. */
  function Current(ep: seq<StepData>): Cells
  {
    if ep == [] then EmptyCellsBoard else ep[|ep| - 1].resultantState.cells
  }

  /** Appending a legal step of the right agent from the current board: the episode
      goes on if the step did not end the game, and is complete if it did. */
  lemma ExtendEpisode(ep: seq<StepData>, s: StepData)
    requires UnfinishedEpisode(ep) && !GameOver(Current(ep)) && |EmptyCells(Current(ep))| == 9 - |ep|
    requires s.state.cells == Current(ep) && s.agentId == |ep| % 2 && LegalStep(s)
    ensures !GameOver(s.resultantState.cells) ==> UnfinishedEpisode(ep + [s])
    ensures GameOver(s.resultantState.cells) ==> ValidEpisode(ep + [s], Winner(s.resultantState.cells))
  {
    if GameOver(s.resultantState.cells) {
      FullIffNoEmptyCell(Current(ep));
      CompleteEpisode(ep, s);
    } else {
      ContinueEpisode(ep, s);
    }
  }

  /** A legal step of the next agent that does not end the game continues the
      episode. */
  lemma ContinueEpisode(ep: seq<StepData>, s: StepData)
    requires UnfinishedEpisode(ep)
    requires s.state.cells == Current(ep) && s.agentId == |ep| % 2 && LegalStep(s)
    requires !GameOver(s.resultantState.cells)
    ensures UnfinishedEpisode(ep + [s])
  {
    if ep != [] {
      assert (ep + [s])[0] == ep[0];
    }
    AppendTurns(ep, s);
    AppendUndecided(ep, s);
    AppendChain(ep, s);
  }

  /** A legal step of the next agent that ends the game completes the episode, which
      then has at most nine steps. */
  lemma CompleteEpisode(ep: seq<StepData>, s: StepData)
    requires UnfinishedEpisode(ep) && |ep| < 9
    requires s.state.cells == Current(ep) && s.agentId == |ep| % 2 && LegalStep(s)
    requires GameOver(s.resultantState.cells)
    ensures ValidEpisode(ep + [s], Winner(s.resultantState.cells))
  {
    var ep' := ep + [s];
    assert ep'[..|ep'| - 1] == ep;
    if ep != [] {
      assert ep'[0] == ep[0];
      assert ep'[|ep'| - 2] == ep[|ep| - 1];
    }
  }

  /** The agents still alternate and every step is legal after a legal step of the
      next agent. */
  lemma AppendTurns(ep: seq<StepData>, s: StepData)
    requires forall k :: 0 <= k < |ep| ==> ep[k].agentId == k % 2 && LegalStep(ep[k])
    requires s.agentId == |ep| % 2 && LegalStep(s)
    ensures forall k :: 0 <= k < |ep + [s]| ==> (ep + [s])[k].agentId == k % 2 && LegalStep((ep + [s])[k])
  {
    var ep' := ep + [s];
    forall k | 0 <= k < |ep'| ensures ep'[k].agentId == k % 2 && LegalStep(ep'[k]) {
      if k < |ep| {
        assert ep'[k] == ep[k];
      } else {
        assert k == |ep|;
      }
    }
  }

  /** No step has ended the game after one more that did not. */
  lemma AppendUndecided(ep: seq<StepData>, s: StepData)
    requires forall k :: 0 <= k < |ep| ==> !GameOver(ep[k].resultantState.cells)
    requires !GameOver(s.resultantState.cells)
    ensures forall k :: 0 <= k < |ep + [s]| ==> !GameOver((ep + [s])[k].resultantState.cells)
  {
    var ep' := ep + [s];
    forall k | 0 <= k < |ep'| ensures !GameOver(ep'[k].resultantState.cells) {
      if k < |ep| {
        assert ep'[k] == ep[k];
      }
    }
  }

  /** Every step still starts where the previous one ended after a step that starts
      on the last resultant board. */
  lemma AppendChain(ep: seq<StepData>, s: StepData)
    requires forall k :: 0 <= k < |ep| - 1 ==> ep[k + 1].state == ep[k].resultantState
    requires ep != [] ==> s.state == ep[|ep| - 1].resultantState
    ensures forall k :: 0 <= k < |ep + [s]| - 1 ==> (ep + [s])[k + 1].state == (ep + [s])[k].resultantState
  {
    var ep' := ep + [s];
    forall k | 0 <= k < |ep'| - 1 ensures ep'[k + 1].state == ep'[k].resultantState {
      if k + 1 < |ep| {
        assert ep'[k + 1] == ep[k + 1] && ep'[k] == ep[k];
      }
    }
  }

  /** One pass of the body of `evaluate_game`'s loop, up to the record of the step:
      agent `agentId` is handed the board (swapped for agent 1), its action is
      swapped back for agent 1 and added, and the result is judged. */
  method PlayTurn(agent: Agent, npBoard: Cells, agentId: nat, agentIsX: bool) returns (stepData: StepData, winner: int, tie: bool)
    requires agentId < 2 && agentIsX == (agentId == 0) && !IsFull(npBoard)
    ensures stepData.agentId == agentId && stepData.state.cells == npBoard && LegalStep(stepData)
    ensures winner == Winner(stepData.resultantState.cells)
    ensures tie <==> winner == 0 && IsFull(stepData.resultantState.cells)
    ensures |EmptyCells(stepData.resultantState.cells)| == |EmptyCells(npBoard)| - 1
  {
    var view := NewBoard(npBoard, agentIsX);
    SwapExchangesWins(npBoard, 1);
    var action := Act(agent, view.value);
    var actionBoard := action.value;
    var k :| 0 <= k < 9 && view.value.cells[k] == 0 && actionBoard.cells == OneHot(k, 1);
    var npAction: seq<int> := actionBoard.cells;
    if !agentIsX {
      npAction := Swap(actionBoard.cells);
      assert forall i :: 0 <= i < 9 ==> npAction[i] == OneHot(k, 2)[i];
    }
    assert npAction == OneHot(k, agentId + 1);
    SwapProperties(npBoard);
    AddOneHotIsPlace(npBoard, k, agentId + 1);
    var newNpBoard := Add(npBoard, npAction);
    var resultant := NewBoard(newNpBoard).value;
    winner, tie := WinCondition(resultant);
    stepData := StepData(agentId, NewBoard(npBoard).value, resultant, actionBoard,
                         if winner == agentId + 1 then 1 else 0);
    PlaceShrinksEmptyCells(npBoard, k, agentId + 1);
  }

  /** `evaluate_game`: agent 0 plays X and moves first; agent 1 is handed the
      swapped board and its action is swapped back to O before it is added. The
      loop ends at the first win (returning the winner) or tie (returning 0). It
      terminates because each step fills one of the empty cells. */
  method EvaluateGame(agent1: Agent, agent2: Agent) returns (winner: int, episodeData: seq<StepData>)
    ensures ValidEpisode(episodeData, winner)
    ensures 0 <= winner <= 2
  {
    var npBoard: Cells := EmptyCellsBoard;
    episodeData := [];
    var agents := [agent1, agent2];
    var agentIsX := [true, false];
    var turn := 0;
    EmptyBoardUndecided();
    while true
      invariant turn == |episodeData| && npBoard == Current(episodeData)
      invariant UnfinishedEpisode(episodeData) && !GameOver(npBoard)
      invariant |EmptyCells(npBoard)| == 9 - turn
      decreases |EmptyCells(npBoard)|
    {
      var agentId := turn % 2;
      var stepData, w, tie := PlayTurn(agents[agentId], npBoard, agentId, agentIsX[agentId]);
      ExtendEpisode(episodeData, stepData);
      episodeData := episodeData + [stepData];
      if w != 0 {
        return w, episodeData;
      }
      if tie {
        return 0, episodeData;
      }
      turn := turn + 1;
      npBoard := stepData.resultantState.cells;
    }
  }

  /** Nobody has won the empty board and it is not full. */
  lemma EmptyBoardUndecided()
    ensures !Wins(EmptyCellsBoard, 1) && !Wins(EmptyCellsBoard, 2) && !GameOver(EmptyCellsBoard)
  {
    var x := EmptyCellsBoard;
    forall l | 0 <= l < 8 ensures !LineFull(x, l, 1) && !LineFull(x, l, 2) {
      assert x[LineCell(l, 0)] == 0;
    }
    assert x[0] == 0;
  }

  /** Only the final step of a game can be rewarded, and it is rewarded exactly when
      the game was won: whoever wins is the player who moved last, and a game
      without a winner ended on a full board. */
  lemma RewardOnlyAtWin(ep: seq<StepData>, winner: int)
    requires ValidEpisode(ep, winner)
    ensures forall k :: 0 <= k < |ep| - 1 ==> ep[k].reward == 0
    ensures ep[|ep| - 1].reward == (if winner != 0 then 1 else 0)
    ensures winner != 0 ==> winner == ep[|ep| - 1].agentId + 1
    ensures winner == 0 ==> IsFull(ep[|ep| - 1].resultantState.cells)
  {
    var prefix := ep[..|ep| - 1];
    UnfinishedUnrewarded(prefix);
    forall k | 0 <= k < |ep| - 1 ensures ep[k].reward == 0 {
      assert ep[k] == prefix[k];
    }
    LastStartUndecided(ep, winner);
    FinalStep(ep[|ep| - 1], winner);
  }

  /** The last step of a game starts on a board nobody has won. */
  lemma LastStartUndecided(ep: seq<StepData>, winner: int)
    requires ValidEpisode(ep, winner)
    ensures !Wins(ep[|ep| - 1].state.cells, 1) && !Wins(ep[|ep| - 1].state.cells, 2)
  {
    var n := |ep| - 1;
    if n > 0 {
      var prefix := ep[..n];
      UnfinishedUnrewarded(prefix);
      assert ep[n].state.cells == prefix[n - 1].resultantState.cells;
    } else {
      EmptyBoardUndecided();
    }
  }

  /** A legal step from an undecided board that ends the game is rewarded exactly
      when it wins, only its mover can have won, and without a winner the board is
      full. */
  lemma FinalStep(s: StepData, winner: int)
    requires LegalStep(s) && !Wins(s.state.cells, 1) && !Wins(s.state.cells, 2)
    requires GameOver(s.resultantState.cells) && winner == Winner(s.resultantState.cells)
    ensures s.reward == (if winner != 0 then 1 else 0)
    ensures winner != 0 ==> winner == s.agentId + 1
    ensures winner == 0 ==> IsFull(s.resultantState.cells)
  {
    var x := s.state.cells;
    var k :| 0 <= k < 9 && x[k] == 0 && s.action.cells == OneHot(k, 1) &&
      s.resultantState.cells == Place(x, k, s.agentId + 1);
    if winner != 0 {
      OnlyMoverCanWin(x, k, s.agentId + 1, winner);
    }
  }

  /** No step of an unfinished episode is rewarded, and nobody has won any board it
      reached. */
  lemma UnfinishedUnrewarded(ep: seq<StepData>)
    requires UnfinishedEpisode(ep)
    ensures forall k :: 0 <= k < |ep| ==> ep[k].reward == 0
    ensures forall k :: 0 <= k < |ep| ==> !Wins(ep[k].resultantState.cells, 1) && !Wins(ep[k].resultantState.cells, 2)
  {
  }

  // ---------------------------------------------------------------------------
  // The tally over many games

  /** `result_mapping`: the result of a game restated for (agent1, agent2) once the
      order of play is known; agent 1 wins with `1`, agent 2 with `2`. */
  function MapResult(agent1First: bool, result: int): (r: int)
    requires 0 <= result <= 2
    ensures 0 <= r <= 2
    ensures r == 0 <==> result == 0
  {
    if agent1First then result
    else if result == 0 then 0 else if result == 1 then 2 else 1
  }

  /** The mapped result names the agent that won: the X player when agent 1 went
      first, the O player otherwise. */
  lemma MapResultNamesWinner(agent1First: bool, result: int)
    requires 0 <= result <= 2
    ensures MapResult(agent1First, result) == 1 <==> result == (if agent1First then 1 else 2)
    ensures MapResult(agent1First, result) == 2 <==> result == (if agent1First then 2 else 1)
  {
  }

  /** One round of `evaluate`: the coin toss and the game it led to. */
  datatype Round = Round(agent1First: bool, result: int, episode: seq<StepData>)

  predicate ValidRound(r: Round)
  {
    0 <= r.result <= 2 && ValidEpisode(r.episode, r.result)
  }

  /** The number of rounds whose mapped result is `i`. */
  function Tally(log: seq<Round>, i: int): nat
    requires forall j :: 0 <= j < |log| ==> 0 <= log[j].result <= 2
  {
    if log == [] then 0
    else Tally(log[..|log| - 1], i) + (if MapResult(log[|log| - 1].agent1First, log[|log| - 1].result) == i then 1 else 0)
  }

  /** Every round is counted exactly once: the three tallies add up to the rounds. */
  lemma {:induction false} TallySum(log: seq<Round>)
    requires forall j :: 0 <= j < |log| ==> 0 <= log[j].result <= 2
    ensures Tally(log, 0) + Tally(log, 1) + Tally(log, 2) == |log|
  {
    if log != [] {
      TallySum(log[..|log| - 1]);
    }
  }

  /** One more valid round adds one to the tally of its mapped result and leaves
      the other tallies as they were. */
  lemma AppendRound(log: seq<Round>, r: Round)
    requires forall j :: 0 <= j < |log| ==> 0 <= log[j].result <= 2 && ValidRound(log[j])
    requires 0 <= r.result <= 2 && ValidRound(r)
    ensures forall j :: 0 <= j < |log + [r]| ==> 0 <= (log + [r])[j].result <= 2 && ValidRound((log + [r])[j])
    ensures forall i :: Tally(log + [r], i) == Tally(log, i) + (if MapResult(r.agent1First, r.result) == i then 1 else 0)
  {
    var log' := log + [r];
    assert log'[..|log'| - 1] == log;
    forall j | 0 <= j < |log'| ensures 0 <= log'[j].result <= 2 && ValidRound(log'[j]) {
      if j < |log| {
        assert log'[j] == log[j];
      }
    }
  }

  /** `evaluate`: each round tosses a coin for who plays X, plays a game and adds one
      to the counter of its mapped result. `log` records the rounds; the counters
      are the tallies of the log, and they sum to `rounds`. */
  method Evaluate(rounds: nat, agent1: Agent, agent2: Agent) returns (wins: seq<nat>, ghost log: seq<Round>)
    ensures |log| == rounds && forall j :: 0 <= j < |log| ==> 0 <= log[j].result <= 2 && ValidRound(log[j])
    ensures |wins| == 3 && forall i :: 0 <= i < 3 ==> wins[i] == Tally(log, i)
    ensures wins[0] + wins[1] + wins[2] == rounds
  {
    var counters := new nat[3](_ => 0);
    log := [];
    var n := 0;
    while n < rounds
      invariant 0 <= n <= rounds && |log| == n
      invariant forall j :: 0 <= j < |log| ==> 0 <= log[j].result <= 2 && ValidRound(log[j])
      invariant forall i :: 0 <= i < 3 ==> counters[i] == Tally(log, i)
    {
      var agent1First: bool :| true;
      var agents := if agent1First then [agent1, agent2] else [agent2, agent1];
      var result, episode := EvaluateGame(agents[0], agents[1]);
      var mapped := MapResult(agent1First, result);
      counters[mapped] := counters[mapped] + 1;
      var round := Round(agent1First, result, episode);
      AppendRound(log, round);
      log := log + [round];
      n := n + 1;
    }
    wins := counters[..];
    TallySum(log);
  }
}
