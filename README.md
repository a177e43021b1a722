# Tic-tac-toe board algebra of play-rl-agent, in Dafny

This project models the discrete core of the play-rl-agent tic-tac-toe engine and proves properties of
that model. The core covers:

- the `Board` class, in both its current form and its older form;
- the random agent;
- the self-play loop `evaluate_game` and the tally `evaluate`;
- the Monte-Carlo sample construction of `generate_montecarlo`;
- the two service functions `process_playdata_json` and `get_agent_action`.

A board is a row-major `seq<int>` of nine cells. Cell 3r+c is row r, column c. A value is 0 for empty,
1 for X and 2 for O. Every numpy expression over a 3×3 array becomes an operation on this sequence.

| file | module | models |
|---|---|---|
| `wrappers.dfy` | `Wrappers` | `Option` and `Result` |
| `grid.dfy` | `Grid` | symbol maps, `SYMBOL_SWAP`, validity, text boards, the digit code, `WIN_CONDITIONS`, empty cells and one-hot actions |
| `symmetry.dfy` | `Symmetry` | `np.rot90`, `flipud`, `fliplr`, `transpose`; the two transform lists as cell permutations; closure, inverses, invariance of the outcome, canonical form by least code |
| `states.dfy` | `States` | `Board` of `api/tictactoe/tictactoe/states.py` |
| `legacy_states.dfy` | `LegacyStates` | the older `Board` of `api/tictactoe/states.py`, whose constructor swaps by default |
| `agent.dfy` | `Agents` | the contract of `Agent.act` and `RandomAgent.act` |
| `evaluate.dfy` | `Evaluate` | `StepData`, `evaluate_game`, `evaluate` |
| `playdata_app.dfy` | `PlaydataApp` | `process_playdata_json` |
| `agent_app.dfy` | `AgentApp` | `get_agent_action` |
| `montecarlo.dfy` | `Montecarlo` | the per-episode loop of `generate_montecarlo` |

## How the model is built

- **Transforms as permutations.** Each listed transform is the permutation `Transform(t, x)[k] == x[Src(t, k)]`.
- **The numpy lists themselves.** `ListedTransform` is the list of numpy lambdas of `BOARD_SYMMETRY_TRANSFORMS`, and `ListedInverse` is that of `BOARD_SYMMETRY_TRANSFORMS_INVERSE`. Both are written with the numpy primitives, and lemmas prove that each equals its permutation.
- **Transforms as values.** A function of `normalization_transform` is a `SymmetryFn`:
  - `Forward(i)` is entry i of the transform list;
  - `Backward(i)` is entry i of the inverse list.
- **Imperative code as methods.** The source's loops are methods with loop invariants:
  - `win_condition` and `possible_actions`;
  - `evaluate_game`, `evaluate` (its counters are an array) and `generate_montecarlo`.
- **The random agent.** `RandomAgent.act` has no loop. It is a method that picks an empty cell with `:|` and writes into a fresh zero array. `np.where` becomes the function `EmptyCells`.
- **Randomness.** `np.random.choice` is a nondeterministic choice (`:|`). This covers the random agent's pick and the coin toss of `evaluate`.
- **Kafka.** Sending to Kafka is appending to an output sequence.
- **Exceptions.** They are `Result` errors:
  - `ValueError` for an invalid board is `InvalidBoard`;
  - `ValueError` from `act` on a full board is `NoPossibleActions`;
  - `KeyError` for a missing `agent_is_x` is `MissingAgentIsX`.

## Model

| member | source | states |
|---|---|---|
| Grid.SymbolMapsInverse | api/tictactoe/tictactoe/states.py:5-14 | `POSITION_TO_VALUE` undoes `VALUE_TO_POSITION`, and the reverse also holds; exactly `-`, `X` and `O` are known symbols |
| Grid.SymbolSwap | api/tictactoe/tictactoe/states.py:15-19 | `SYMBOL_SWAP` fixes exactly 0 and exchanges 1 and 2 |
| Grid.SwapProperties | api/tictactoe/tictactoe/states.py:15-19 | the cellwise swap keeps empty cells empty, exchanges the marks, and undoes itself |
| Grid.SwapFixesOnlyEmpty | api/tictactoe/tictactoe/states.py:15-19 | the swap leaves a grid unchanged exactly when the grid is empty |
| Grid.ParseSymbols | api/tictactoe/tictactoe/states.py:90 | `np.vectorize(POSITION_TO_VALUE.get)` gives values exactly when every symbol is known; each value is the map's value for its symbol |
| Grid.TextRoundTrip | api/tictactoe/tictactoe/states.py:155-157 | reading the text of a grid gives the grid back |
| Grid.DigitsValue | api/tictactoe/tictactoe/states.py:111-113 | the number the joined digits spell is below 10^n, and its n-digit spelling is those digits |
| Grid.DigitsRoundTrip | api/tictactoe/tictactoe/states.py:96 | for c below 10^n, the n digits of `zfill(n)` spell c again |
| Grid.NpBoardToCode | api/tictactoe/tictactoe/states.py:111-113 | the code is below 10^9, and its `zfill(9)` digits are the grid, cell by cell |
| Grid.CodeInjective | api/tictactoe/tictactoe/states.py:178-180 | two grids have the same code exactly when they are equal, as the comment on the minimum relies on |
| Grid.SwapExchangesWins | api/tictactoe/tictactoe/states.py:129-142 | after the swap, player p holds a line exactly when 3 - p held it before; fullness is kept |
| Grid.EmptyPrefix | api/tictactoe/tictactoe/states.py:146 | `np.where(board == 0)`: the empty cells, each exactly once, in row-major order |
| Grid.FullIffNoEmptyCell | api/tictactoe/tictactoe/states.py:139 | `np.all(board != 0)` holds exactly when there is no empty coordinate |
| Grid.AddOneHotIsPlace | api/tictactoe/tictactoe/evaluate.py:69 | adding a one-hot action on an empty cell places that mark there and changes nothing else |
| Grid.PlaceShrinksEmptyCells | api/tictactoe/tictactoe/evaluate.py:69 | placing a mark on an empty cell leaves exactly one empty cell fewer |
| Grid.OnlyMoverCanWin | api/tictactoe/tictactoe/evaluate.py:70-83 | after one mark on a board nobody has won, only the player who moved can have won |
| Symmetry.MoveThen | api/tictactoe/tictactoe/states.py:23-40 | reading through two exchange-and-mirror shapes reads through their composite shape |
| Symmetry.IndexOf | api/tictactoe/tictactoe/states.py:23-40 | every exchange-and-mirror shape is one of the eight listed transforms |
| Symmetry.RotTimesIndex | api/tictactoe/tictactoe/states.py:27-31 | n counter-clockwise quarter turns read each cell through the shape of the n-th rotation |
| Symmetry.SrcIsMove | api/tictactoe/tictactoe/states.py:23-40 | the permutation table of the eight transforms is the table of their shapes |
| Symmetry.RotSymPeriod | api/tictactoe/tictactoe/states.py:27-31 | four quarter turns are no turn: the shape of n quarter turns is that of transform n mod 4 |
| Symmetry.Rot90IsTransform | api/tictactoe/tictactoe/states.py:27-31 | `np.rot90(x, k)` for any integer k is the listed permutation k mod 4 |
| Symmetry.RotationsAreTransforms | api/tictactoe/tictactoe/states.py:27-31 | `np.rot90(x, k)` for k = 1, 2, 3 and -1 is permutation 1, 2, 3 and 3 |
| Symmetry.ReflectionsAreTransforms | api/tictactoe/tictactoe/states.py:33-37 | `np.flipud`, `np.fliplr` and `np.transpose` are permutations 4, 5 and 6 |
| Symmetry.ListedTransformIsTransform | api/tictactoe/tictactoe/states.py:23-40 | each listed numpy expression, including `np.rot90(np.flipud(x))`, is permutation t |
| Symmetry.ListedInverseIsTransform | api/tictactoe/tictactoe/states.py:41-58 | each listed inverse expression, including `np.flipud(np.rot90(x, -1))`, is the inverse permutation of t |
| Symmetry.Compose | api/tictactoe/tictactoe/states.py:23-40 | the eight transforms are closed under composition: two in a row act as a single listed one |
| Symmetry.TransformCompose | api/tictactoe/tictactoe/states.py:23-40 | transforming a transformed grid gives the grid's transform by the composite |
| Symmetry.SrcInverse | api/tictactoe/tictactoe/states.py:41-58 | the inverse permutation sends each cell back, in both orders |
| Symmetry.InverseUndoesTransform | api/tictactoe/tictactoe/states.py:41-58 | inverse i undoes transform i, and transform i undoes inverse i, on grids of any element type |
| Symmetry.TransformCarriesLines | api/tictactoe/tictactoe/states.py:60-73 | each transform maps the eight winning lines onto winning lines, so a line won in the transform was won in the grid |
| Symmetry.OutcomeInvariant | api/tictactoe/tictactoe/states.py:129-142 | each player's lines, fullness, the winner and the end of the game are unchanged by every transform |
| Symmetry.SwapCommutes | api/tictactoe/tictactoe/states.py:187-188 | swapping the symbols commutes with every transform |
| Symmetry.TextCommutes | api/tictactoe/tictactoe/states.py:155-157 | writing the text board commutes with every transform |
| Symmetry.ParseCommutes | api/tictactoe/tictactoe/states.py:80-92 | a text board has an unknown symbol exactly when its transform has one; reading commutes with transforming |
| Symmetry.TransformOneHot | api/playdata-api/app.py:41-45 | a transform carries a one-hot action to a one-hot action of the same mark on the cell to which the transform moves the original cell |
| Symmetry.FirstMinimal | api/tictactoe/tictactoe/states.py:181 | Python's `min` by key: the key picked is least, and every earlier key is strictly greater |
| Symmetry.OrbitCodeShift | api/tictactoe/tictactoe/states.py:168-176 | the code of transform i of transform j of a grid is the code of one listed transform of the grid |
| Symmetry.CanonicalFormProperties | api/tictactoe/tictactoe/states.py:163-182 | the canonical code is the least of the eight codes, and the inverse of the picked transform restores the grid |
| Symmetry.CanonicalCodeNotBelow | api/tictactoe/tictactoe/states.py:178-180 | no symmetric grid has a canonical code below the grid's own canonical code |
| Symmetry.CanonicalFormInvariant | api/tictactoe/tictactoe/states.py:178-180 | every symmetric grid normalises to the same grid and the same code |
| States.NewBoard | api/tictactoe/tictactoe/states.py:115-124 | `ValueError` exactly for an invalid grid; the grid is stored as given for X, and cellwise swapped otherwise |
| States.SwapSymbolsProperties | api/tictactoe/tictactoe/states.py:187-188 | applying `swap_symbols` twice gives the board back; `Board(np, False)` is `swap_symbols` of `Board(np, True)` |
| States.FromTextBoard | api/tictactoe/tictactoe/states.py:80-92 | it succeeds exactly for nine known symbols; for X, `text_board` of the result is the input |
| States.TextRoundTrips | api/tictactoe/tictactoe/states.py:155-157 | `from_text_board(b.text_board) == b`; reading as O is `swap_symbols` of reading as X, and fails exactly when that does |
| States.FromBoardCode | api/tictactoe/tictactoe/states.py:94-98 | it succeeds exactly for 0 <= c < 10^9 whose `zfill(9)` digits are all at most 2, and the `code` of the result is c |
| States.CodeRoundTrip | api/tictactoe/tictactoe/states.py:159-161 | `from_board_code(b.code) == b`, and two boards share a code only when they are equal |
| States.ApplyIsListed | api/tictactoe/tictactoe/states.py:23-58 | applying `Forward(i)` or `Backward(i)` is calling entry i of the transform list or of the inverse list |
| States.TransformProperties | api/tictactoe/tictactoe/states.py:184-185 | `b.transform(f).transform(f_inv) == b` in both orders, and `transform` commutes with `swap_symbols` |
| States.OrbitCodesAreCodes | api/tictactoe/tictactoe/states.py:168-176 | the keys of `all_transforms` are the codes of the transformed boards, in list order |
| States.FromTextBoardCommutes | api/tictactoe/tictactoe/states.py:80-92 | reading a transformed text board succeeds exactly when reading the original does, and gives the transformed board |
| States.NormalizationTransform | api/tictactoe/tictactoe/states.py:163-182 | the pair is a listed transform and its own inverse; its code is least, and every earlier transform's code is greater |
| States.NormalizedIsCanonical | api/tictactoe/tictactoe/states.py:163-185 | the normalised board is the canonical form of its grid, and any board moved by that transform is moved by the grid's minimal transform |
| States.NormalizationInvariant | api/tictactoe/tictactoe/states.py:178-180 | every board symmetric to b normalises to the same board and code, and the returned inverse maps the normalised board back to b |
| States.OutcomeInvariant | api/tictactoe/tictactoe/states.py:129-142 | the winner and the tie condition are unchanged by any transform or inverse |
| States.WinCondition | api/tictactoe/tictactoe/states.py:129-142 | it returns `(1, False)` if 1 holds a line, else `(2, False)` if 2 holds a line; else `(0, True)` exactly when full, and `(0, False)` otherwise |
| States.PossibleActions | api/tictactoe/tictactoe/states.py:144-153 | one board per empty cell, in row-major order, each the one-hot X on that cell; an empty list exactly when the board is full |
| LegacyStates.NewLegacyBoard | api/tictactoe/states.py:75-84 | `ValueError` exactly for an invalid grid; the stored grid is swapped unless `agent_is_x=True` is passed |
| LegacyStates.FromNpTextBoard | api/tictactoe/states.py:44-52 | it succeeds exactly for nine known symbols, and does not swap unless asked |
| LegacyStates.FromBoardCode | api/tictactoe/states.py:54-58 | it succeeds exactly for codes below 10^9 whose digits are at most 2, and stores the swap of the digits |
| LegacyStates.CodeRoundTripSwaps | api/tictactoe/states.py:54-58 | decoding a board's code gives the swapped board, which is the board itself only for the empty board |
| LegacyStates.TopLeftCode | api/tictactoe/states.py:71-73 | the board with a lone X in the top-left corner has code 100000000 |
| LegacyStates.CodeRoundTripCounterexample | api/tictactoe/states.py:54-58 | code 100000000 decodes to O in the corner, not to the X board it came from |
| LegacyStates.NormalizationTransform | api/tictactoe/states.py:95-109 | the first of the eight transforms with the least code |
| LegacyStates.TransformBoard | api/tictactoe/states.py:111-112 | `transform` stores the swap of the transformed grid |
| LegacyStates.TransformSwapsWinner | api/tictactoe/states.py:111-112 | after `transform`, player p holds a line exactly when 3 - p held one before |
| Agents.LegalActionShape | api/tictactoe/tictactoe/agent.py:27-28 | a legal action has one nonzero cell, holding 1 on a cell empty in the state; every empty cell gives a legal action |
| Agents.Act | api/tictactoe/tictactoe/agent.py:14-29 | `ValueError` exactly when no cell is empty; otherwise an unswapped one-hot X on an empty cell |
| Evaluate.PlayTurn | api/tictactoe/tictactoe/evaluate.py:56-79 | one turn: a legal step of the agent from the board; the winner and tie of its result; one empty cell fewer |
| Evaluate.ExtendEpisode | api/tictactoe/tictactoe/evaluate.py:73-88 | a legal step from the current board either continues the episode or completes a valid game, depending on whether it ends the game |
| Evaluate.EvaluateGame | api/tictactoe/tictactoe/evaluate.py:46-88 | it terminates; the episode alternates agents from 0 on the empty board, chains the states, and ends at the first win or tie; the winner is 0, 1 or 2 |
| Evaluate.EmptyBoardUndecided | api/tictactoe/tictactoe/evaluate.py:47 | nobody has won the empty starting board and it is not full |
| Evaluate.RewardOnlyAtWin | api/tictactoe/tictactoe/evaluate.py:78-85 | only the last step can be rewarded; it is rewarded exactly when the game was won; the winner is the last mover, and a game without a winner ended full |
| Evaluate.MapResult | api/tictactoe/tictactoe/evaluate.py:16-33 | `result_mapping` keeps 0..2 and maps only a tie to 0 |
| Evaluate.MapResultNamesWinner | api/tictactoe/tictactoe/evaluate.py:16-33 | the mapped result is 1 exactly when agent1 won, and 2 exactly when agent2 won, whoever played X |
| Evaluate.TallySum | api/tictactoe/tictactoe/evaluate.py:32-33 | each round is counted exactly once |
| Evaluate.Evaluate | api/tictactoe/tictactoe/evaluate.py:13-33 | every round is a valid game; the counters are the tallies of the mapped results, and the three sum to `rounds` |
| PlaydataApp.ProcessPlaydataJson | api/playdata-api/app.py:34-58 | `KeyError` without `agent_is_x`; `ValueError` for a malformed board; otherwise success, with the reward passed through |
| PlaydataApp.NormalizedActionStaysLegal | api/playdata-api/app.py:41-45 | a one-hot action on an empty cell stays a one-hot action of the same mark on an empty cell of the normalised state |
| PlaydataApp.ProcessedCodes | api/playdata-api/app.py:41-56 | the codes are those of the normalised initial state, of the action moved by the same transform, and of the resultant state normalised on its own |
| PlaydataApp.InitialCodeIsLeast | api/playdata-api/app.py:41-54 | the emitted initial code is the least over the eight transforms of the ingested state |
| PlaydataApp.SymmetricCodes | api/playdata-api/app.py:41-56 | inputs read as symmetric boards give the same initial and resultant codes |
| PlaydataApp.ProcessSymmetricAccepts | api/playdata-api/app.py:34-49 | moving the text boards by symmetries changes neither acceptance nor rejection |
| PlaydataApp.ProcessSymmetric | api/playdata-api/app.py:41-56 | moving the initial and resultant text boards by any symmetries leaves their output codes unchanged |
| AgentApp.ViewKeepsEmptyCells | api/agent-api/app.py:29-32 | the swap at ingestion keeps exactly the caller's empty cells empty |
| AgentApp.ActionText | api/agent-api/app.py:35-40 | the action swapped back writes one cell with the caller's symbol and every other cell as `-` |
| AgentApp.GetAgentAction | api/agent-api/app.py:28-42 | errors without `agent_is_x`, for a malformed board, and exactly for a full board; otherwise one empty cell is marked with the caller's symbol, X or O |
| Montecarlo.StepJsonRecord | api/playdata-api/montecarlo.py:19-53 | the object built for odd step x is processed into record (x - 1) / 2, in the codes of the O player's view |
| Montecarlo.EpisodeSteps | api/playdata-api/montecarlo.py:18 | in every game `evaluate_game` returns, agent k % 2 makes step k (so the assertion holds), rewards are 0 or 1, and only the last step can be 1 |
| Montecarlo.StepRecord | api/playdata-api/montecarlo.py:18-53 | one pass of the loop: the final step uses its own resultant state and reward; an earlier one uses the reply's resultant state and the reward difference; the reward lies in -1..1 |
| Montecarlo.EpisodeRecords | api/playdata-api/montecarlo.py:17-53 | ⌊len/2⌋ records, record i being the one for step 2i + 1, each reward in {-1, 0, 1} |
| Montecarlo.GenerateMontecarlo | api/playdata-api/montecarlo.py:12-53 | the records sent are those of each played game in order, and every reward sent lies in {-1, 0, 1} |

## Left out

- Numpy dtypes: the `int64` and `int8` checks, `astype` and the dtype that `np.vectorize` picks are left out. Validity is nine cells with values in 0..2. A text board with a wrong length or an unknown symbol is `InvalidBoard`, whether numpy raises (`TypeError`, or `ValueError` on an empty list) or the constructor does.
- The 3×3 nested text input of `from_text_board` and `from_np_text_board` is left out. Only the flat nine-symbol form that the JSON schema delivers is modelled, and rows are flattened row-major.
- `from_board_code` for arguments that are not integers is left out.
- Exception types are collapsed into the `Error` datatype, without their messages.
- `Board.__str__` in both files is left out (text formatting).
- `possible_actions(player="X")` is a property, so `player` is always `"X"`; only that case is modelled.
- `normalization_transform` returns Python callables; the model returns `SymmetryFn` values that name them.
- `Agent` is the abstract class, and the source of `QLearningAgent` is not part of this model. `Agent` has the random agent as its only case, and `LegalAction` states what the callers rely on from any agent.
- `np.random.choice` is a nondeterministic choice, not a probability distribution. This covers the cell picked by the random agent and the coin toss of `evaluate`.
- Rewards are `int`: they are only ever 1.0, 0.0 or differences of those.
- The printed win percentages of `evaluate`, `tqdm` and the `__main__` blocks are left out. The model returns the `wins` list and a ghost log of rounds.
- Evaluate.Evaluate: returns normally for every `rounds`, but the source never returns normally from line 35. With a `RandomAgent` as `agent1` it always raises `AttributeError` at line 35, because `agent1.name` is evaluated first and `RandomAgent` defines no `name`. Only an `agent1` with a `name` would reach the `ZeroDivisionError` of `100 * wins[1] / rounds` when `rounds == 0`. The source returns `None`; the `wins` list is a result only the model has.
- `get_agent_action` is a method, not a function, because it calls the nondeterministic `act`.
- Kafka (`playdatakafka.py`) is left out; `playdata.send` is appending to the output sequence.
- Montecarlo.EpisodeRecords: on its own it does not model the `AssertionError` of line 18. It requires the alternation that the assertion checks, and `GenerateMontecarlo` proves that alternation for every game `evaluate_game` returns, so the assertion never fails there.
- The Flask routes, the request validation by `jsonschema`, `training.py` (scheduling, locking, the database, Q-learning), the top-level `playdata-api/app.py` and the frontend are left out. They are HTTP plumbing, I/O, concurrency and UI. The schema's nine-symbol rule is `WellFormedText`, and both service functions handle its failure as an error.

## Findings

| source | as written | input that shows it | evidently intended | confidence | as-written member | corrected member |
|---|---|---|---|---|---|---|
| api/tictactoe/states.py:54-58 | `from_board_code` builds its board with the constructor default `agent_is_x=False`, so the decoded digits are stored swapped | code 100000000, the code of a lone X in the top-left corner, decodes to a lone O there | `from_board_code(b.code) == b`, as the current `Board` gives with its default `agent_is_x=True` | not executed | LegacyStates.CodeRoundTripCounterexample | States.CodeRoundTrip |
| api/tictactoe/states.py:111-112 | `transform` builds its board with the constructor default `agent_is_x=False`, so every transform also swaps X and O | with the identity transform, a board where X holds the top row becomes one where O holds it | a symmetry keeps the players and therefore the winner, as in the current `Board` | not executed | LegacyStates.TransformSwapsWinner | States.OutcomeInvariant |
