/** `process_playdata_json` of the play-data service: one recorded move is read
    from its JSON form, put into canonical form and turned into board codes. */
module PlaydataApp {
  import opened Wrappers
  import opened Grid
  import opened States
  import Symmetry

  /** The JSON object the function reads. The symbol lists and the reward are
      required by the schema; `agent_is_x` may be absent. */
  datatype PlaydataJson = PlaydataJson(
    initialState: seq<char>,
    action: seq<char>,
    resultantState: seq<char>,
    reward: int,
    agentIsX: Option<bool>)

  /** The dictionary the function returns. */
  datatype Processed = Processed(initialState: nat, action: nat, resultantState: nat, reward: int)

  /** `process_playdata_json`. Indexing a missing `agent_is_x` raises `KeyError`
      before any board is built; a malformed symbol list raises `ValueError`. The
      initial state is normalised and the action is moved by the same transform; the
      resultant state is normalised with its own transform; the reward is copied. */
  function ProcessPlaydataJson(j: PlaydataJson): (r: Result<Processed, Error>)
    ensures j.agentIsX.None? ==> r == Err(MissingAgentIsX)
    ensures r.Ok? <==> j.agentIsX.Some? && WellFormedText(j.initialState) && WellFormedText(j.action) && WellFormedText(j.resultantState)
    ensures r.Err? && j.agentIsX.Some? ==> r.error == InvalidBoard
    ensures r.Ok? ==> r.value.reward == j.reward
  {
    match j.agentIsX
    case None => Err(MissingAgentIsX)
    case Some(agentIsX) =>
      var initialState := FromTextBoard(j.initialState, agentIsX);
      var action := FromTextBoard(j.action, agentIsX);
      if initialState.Err? then Err(initialState.error)
      else if action.Err? then Err(action.error)
      else
        var (normalizationTransform, _) := NormalizationTransform(initialState.value);
        var initial := TransformBoard(initialState.value, normalizationTransform);
        var act := TransformBoard(action.value, normalizationTransform);
        var resultantState := FromTextBoard(j.resultantState, agentIsX);
        if resultantState.Err? then Err(resultantState.error)
        else
          var (resultantTransform, _) := NormalizationTransform(resultantState.value);
          var resultant := TransformBoard(resultantState.value, resultantTransform);
          Ok(Processed(Code(initial), Code(act), Code(resultant), j.reward))
  }

  /** A one-hot action on an empty cell of the initial state is still a one-hot
      action, of the same mark, on an empty cell of the normalised state. */
  lemma NormalizedActionStaysLegal(initial: Board, action: Board, k: nat, v: Value)
    requires k < 9 && initial.cells[k] == 0 && action.cells == OneHot(k, v)
    ensures var f := NormalizationTransform(initial).0;
      exists k' :: 0 <= k' < 9 && TransformBoard(initial, f).cells[k'] == 0 &&
        TransformBoard(action, f).cells == OneHot(k', v)
  {
    var f := NormalizationTransform(initial).0;
    var t := f.index;
    var k' := Symmetry.Src(Symmetry.InverseIndex(t), k);
    assert Apply(f, initial.cells) == Symmetry.Transform(t, initial.cells);
    assert Apply(f, action.cells) == Symmetry.Transform(t, action.cells);
    Symmetry.TransformOneHot(t, k, v, initial.cells);
  }

  /** The JSON object with its initial state and action moved by transform `t` and
      its resultant state moved by transform `t'`. */
  function MoveBoards(j: PlaydataJson, t: nat, t': nat): PlaydataJson
    requires t < 8 && t' < 8 && |j.initialState| == 9 && |j.action| == 9 && |j.resultantState| == 9
  {
    j.(initialState := Symmetry.Transform(t, j.initialState),
       action := Symmetry.Transform(t, j.action),
       resultantState := Symmetry.Transform(t', j.resultantState))
  }

  /** What the output codes are: the initial code is that of the normalised initial
      state, the action is moved by the transform that normalises the initial state,
      and the resultant code is that of the normalised resultant state. */
  lemma ProcessedCodes(j: PlaydataJson)
    requires ProcessPlaydataJson(j).Ok?
    ensures var r := ProcessPlaydataJson(j).value;
      var initial := FromTextBoard(j.initialState, j.agentIsX.value).value;
      var action := FromTextBoard(j.action, j.agentIsX.value).value;
      var resultant := FromTextBoard(j.resultantState, j.agentIsX.value).value;
      r.initialState == Code(Normalized(initial)) &&
      r.action == Code(TransformBoard(action, NormalizationTransform(initial).0)) &&
      r.resultantState == Code(Normalized(resultant))
  {
  }

  /** The emitted initial code is the least code over the eight transforms of the
      initial state. */
  lemma InitialCodeIsLeast(j: PlaydataJson)
    requires ProcessPlaydataJson(j).Ok?
    ensures var initial := FromTextBoard(j.initialState, j.agentIsX.value).value;
      forall i :: 0 <= i < 8 ==> ProcessPlaydataJson(j).value.initialState <= Code(TransformBoard(initial, Forward(i)))
  {
    ProcessedCodes(j);
  }

  /** Two play-data objects whose states are read as symmetric boards give the
      same initial-state and resultant-state codes. */
  lemma SymmetricCodes(j: PlaydataJson, j': PlaydataJson, b: Board, c: Board, t: nat, t': nat)
    requires t < 8 && t' < 8
    requires ProcessPlaydataJson(j).Ok? && ProcessPlaydataJson(j').Ok?
    requires j.agentIsX == j'.agentIsX && j.agentIsX.Some?
    requires FromTextBoard(j.initialState, j.agentIsX.value) == Ok(b)
    requires FromTextBoard(j.resultantState, j.agentIsX.value) == Ok(c)
    requires FromTextBoard(j'.initialState, j.agentIsX.value) == Ok(TransformBoard(b, Forward(t)))
    requires FromTextBoard(j'.resultantState, j.agentIsX.value) == Ok(TransformBoard(c, Forward(t')))
    ensures ProcessPlaydataJson(j').value.initialState == ProcessPlaydataJson(j).value.initialState
    ensures ProcessPlaydataJson(j').value.resultantState == ProcessPlaydataJson(j).value.resultantState
  {
    NormalizationInvariant(b, Forward(t));
    NormalizationInvariant(c, Forward(t'));
    ProcessedCodes(j);
    ProcessedCodes(j');
  }

  /** Symmetric play data is accepted exactly when the original is. */
  lemma ProcessSymmetricAccepts(j: PlaydataJson, t: nat, t': nat)
    requires t < 8 && t' < 8 && |j.initialState| == 9 && |j.action| == 9 && |j.resultantState| == 9
    ensures ProcessPlaydataJson(MoveBoards(j, t, t')).Ok? <==> ProcessPlaydataJson(j).Ok?
  {
    if j.agentIsX.Some? {
      var flag := j.agentIsX.value;
      FromTextBoardCommutes(t, j.initialState, flag);
      FromTextBoardCommutes(t, j.action, flag);
      FromTextBoardCommutes(t', j.resultantState, flag);
    }
  }

  /** Symmetric play data gives the same initial-state and resultant-state codes. */
  lemma ProcessSymmetric(j: PlaydataJson, t: nat, t': nat)
    requires t < 8 && t' < 8 && |j.initialState| == 9 && |j.action| == 9 && |j.resultantState| == 9
    requires ProcessPlaydataJson(j).Ok?
    ensures ProcessPlaydataJson(MoveBoards(j, t, t')).Ok?
    ensures ProcessPlaydataJson(MoveBoards(j, t, t')).value.initialState == ProcessPlaydataJson(j).value.initialState
    ensures ProcessPlaydataJson(MoveBoards(j, t, t')).value.resultantState == ProcessPlaydataJson(j).value.resultantState
  {
    var j' := MoveBoards(j, t, t');
    var flag := j.agentIsX.value;
    ProcessSymmetricAccepts(j, t, t');
    FromTextBoardCommutes(t, j.initialState, flag);
    FromTextBoardCommutes(t', j.resultantState, flag);
    var b := FromTextBoard(j.initialState, flag).value;
    var c := FromTextBoard(j.resultantState, flag).value;
    assert FromTextBoard(j'.initialState, flag) == Ok(TransformBoard(b, Forward(t)));
    assert FromTextBoard(j'.resultantState, flag) == Ok(TransformBoard(c, Forward(t')));
    SymmetricCodes(j, j', b, c, t, t');
  }
}
