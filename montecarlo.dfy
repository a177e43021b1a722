/** The training samples `generate_montecarlo` derives from self-play: for every
    move of the second agent (O), one play-data record in that agent's view. */
module Montecarlo {
  import opened Wrappers
  import opened Grid
  import opened States
  import Symmetry
  import opened Agents
  import opened Evaluate
  import opened PlaydataApp

  /** Record `i` of an episode is the one sent for step `x = 2 * i + 1`, in the
      canonical codes the play-data service produces for the O player's view
      (symbols swapped). The resultant state and the reward are the step's own at the
      end of the game; before that they are those after the opponent's reply, and the
      reward is the difference of the two rewards. */
  predicate RecordOf(ep: seq<StepData>, i: nat, record: Processed)
    requires 2 * i + 1 < |ep|
  {
    var x := 2 * i + 1;
    var y := if x == |ep| - 1 then x else x + 1;
    var view := Swap(ep[x].state.cells);
    record.initialState == Symmetry.CanonicalCode(view) &&
    record.action == NpBoardToCode(Symmetry.Transform(Symmetry.MinimalTransform(view), ep[x].action.cells)) &&
    record.resultantState == Symmetry.CanonicalCode(Swap(ep[y].resultantState.cells)) &&
    record.reward == (if x == |ep| - 1 then ep[x].reward else ep[x].reward - ep[x + 1].reward)
  }

  /** The records sent for a whole episode: one for each odd step. */
  predicate RecordsOf(ep: seq<StepData>, records: seq<Processed>)
  {
    |records| == |ep| / 2 &&
    forall i :: 0 <= i < |records| ==> 2 * i + 1 < |ep| && RecordOf(ep, i, records[i])
  }

  /** The play-data object built for step `x` with the resultant state of step `y`:
      text boards in real symbols, the action re-expressed as O, and
      `agent_is_x=False`. */
  function StepJson(ep: seq<StepData>, x: nat, y: nat, reward: int): PlaydataJson
    requires x < |ep| && y < |ep|
  {
    PlaydataJson(TextBoard(ep[x].state),
                 TextBoard(NewBoard(ep[x].action.cells, false).value),
                 TextBoard(ep[y].resultantState),
                 reward,
                 Some(false))
  }

  /** The object the loop body builds for step `x`. */
  function JsonFor(ep: seq<StepData>, x: nat): PlaydataJson
    requires x < |ep|
  {
    if x == |ep| - 1 then StepJson(ep, x, x, ep[x].reward)
    else StepJson(ep, x, x + 1, ep[x].reward - ep[x + 1].reward)
  }

  /** Processing the object built for step `2 * i + 1` succeeds and yields record
      `i`. */
  lemma StepJsonRecord(ep: seq<StepData>, i: nat, x: nat)
    requires x == 2 * i + 1 < |ep|
    ensures ProcessPlaydataJson(JsonFor(ep, x)).Ok?
    ensures RecordOf(ep, i, ProcessPlaydataJson(JsonFor(ep, x)).value)
  {
    var y := if x == |ep| - 1 then x else x + 1;
    var j := JsonFor(ep, x);
    var s, a, res := ep[x].state, NewBoard(ep[x].action.cells, false).value, ep[y].resultantState;
    TextRoundTrips(s, TextBoard(s));
    TextRoundTrips(a, TextBoard(a));
    TextRoundTrips(res, TextBoard(res));
    SwapSymbolsProperties(ep[x].action, ep[x].action.cells);
    assert FromTextBoard(j.initialState, false) == Ok(SwapSymbols(s));
    assert FromTextBoard(j.action, false) == Ok(ep[x].action);
    assert FromTextBoard(j.resultantState, false) == Ok(SwapSymbols(res));
    ProcessedCodes(j);
    NormalizedIsCanonical(SwapSymbols(s), ep[x].action);
    NormalizedIsCanonical(SwapSymbols(res), ep[x].action);
  }

  /** The agents alternate from agent 0, every reward is 0 or 1, and only the last
      step can carry reward 1. */
  predicate AlternatingRewards(ep: seq<StepData>)
  {
    (forall k :: 0 <= k < |ep| ==> ep[k].agentId == k % 2 && 0 <= ep[k].reward <= 1) &&
    (forall k :: 0 <= k < |ep| - 1 ==> ep[k].reward == 0)
  }

  /** In a game the agents alternate from agent 0, every reward is 0 or 1, and
      only the last step can carry reward 1; so every reward sent lies in
      {-1, 0, 1}. */
  lemma EpisodeSteps(ep: seq<StepData>, winner: int)
    requires ValidEpisode(ep, winner)
    ensures AlternatingRewards(ep)
  {
    RewardOnlyAtWin(ep, winner);
    var prefix := ep[..|ep| - 1];
    forall k | 0 <= k < |ep| - 1 ensures ep[k].agentId == k % 2 {
      assert ep[k] == prefix[k];
    }
  }

  /** The body of the inner loop of `generate_montecarlo` for step `2 * i + 1`,
      which the source asserts is agent 1's: the object for that step is built and
      processed into record `i`. */
  method StepRecord(episodeData: seq<StepData>, i: nat) returns (record: Processed)
    requires AlternatingRewards(episodeData) && 2 * i + 1 < |episodeData|
    ensures RecordOf(episodeData, i, record)
    ensures -1 <= record.reward <= 1
  {
    var x := 2 * i + 1;
    assert x % 2 == 1;
    assert episodeData[x].agentId == 1;
    var json;
    if x == |episodeData| - 1 {
      // the second agent made the last move
      json := StepJson(episodeData, x, x, episodeData[x].reward);
    } else {
      json := StepJson(episodeData, x, x + 1, episodeData[x].reward - episodeData[x + 1].reward);
    }
    assert json == JsonFor(episodeData, x);
    StepJsonRecord(episodeData, i, x);
    record := ProcessPlaydataJson(json).value;
  }

  /** The inner loop of `generate_montecarlo` for one episode: every odd step is
      sent as a record. */
  method EpisodeRecords(episodeData: seq<StepData>) returns (sent: seq<Processed>)
    requires AlternatingRewards(episodeData)
    ensures RecordsOf(episodeData, sent)
    ensures forall i :: 0 <= i < |sent| ==> -1 <= sent[i].reward <= 1
  {
    sent := [];
    var x := 1;
    while x < |episodeData|
      invariant x == 2 * |sent| + 1 && x <= |episodeData| + 1
      invariant forall i :: 0 <= i < |sent| ==> 2 * i + 1 < |episodeData| && RecordOf(episodeData, i, sent[i])
      invariant forall i :: 0 <= i < |sent| ==> -1 <= sent[i].reward <= 1
    {
      var record := StepRecord(episodeData, |sent|);
      AppendRecord(episodeData, sent, record);
      sent := sent + [record];
      x := x + 2;
    }
  }

  /** Record `|sent|` extends the records `sent` of an episode. */
  lemma AppendRecord(ep: seq<StepData>, sent: seq<Processed>, record: Processed)
    requires 2 * |sent| + 1 < |ep|
    requires forall i :: 0 <= i < |sent| ==> 2 * i + 1 < |ep| && RecordOf(ep, i, sent[i])
    requires RecordOf(ep, |sent|, record)
    ensures forall i :: 0 <= i < |sent| + 1 ==> 2 * i + 1 < |ep| && RecordOf(ep, i, (sent + [record])[i])
  {
  }

  /** The records of several episodes, in order. */
  function Concat(chunks: seq<seq<Processed>>): seq<Processed>
  {
    if chunks == [] then [] else Concat(chunks[..|chunks| - 1]) + chunks[|chunks| - 1]
  }

  /** `generate_montecarlo`: `episodes` games of the random agent (X) against the
      agent being trained (O), each turned into its records; sending to the queue is
      appending to `sent`. */
  method GenerateMontecarlo(rlAgent: Agent, episodes: nat) returns (sent: seq<Processed>, ghost log: seq<(int, seq<StepData>)>, ghost chunks: seq<seq<Processed>>)
    ensures |log| == episodes && |chunks| == episodes && sent == Concat(chunks)
    ensures forall e :: 0 <= e < episodes ==> ValidEpisode(log[e].1, log[e].0) && RecordsOf(log[e].1, chunks[e])
    ensures forall i :: 0 <= i < |sent| ==> -1 <= sent[i].reward <= 1
  {
    var randomAgent := RandomAgent;
    sent, log, chunks := [], [], [];
    var n := 0;
    while n < episodes
      invariant n <= episodes && |log| == n && |chunks| == n && sent == Concat(chunks)
      invariant forall e :: 0 <= e < n ==> ValidEpisode(log[e].1, log[e].0) && RecordsOf(log[e].1, chunks[e])
      invariant forall i :: 0 <= i < |sent| ==> -1 <= sent[i].reward <= 1
    {
      var winner, episodeData := EvaluateGame(randomAgent, rlAgent);
      EpisodeSteps(episodeData, winner);
      var records := EpisodeRecords(episodeData);
      var chunks' := chunks + [records];
      assert chunks'[..|chunks'| - 1] == chunks;
      sent := sent + records;
      log := log + [(winner, episodeData)];
      chunks := chunks';
      n := n + 1;
    }
  }
}
