/** The `Board` class of the `tictactoe` package. A board is immutable once built:
    the constructor validates the grid and, when the agent plays O, swaps the
    symbols so that the agent is always stored as X (value 1). */
module States {
  import opened Wrappers
  import opened Grid
  import Symmetry

  /** A validated board, in the agent-is-X convention. */
  datatype Board = Board(cells: Cells)

  /** `Board(np_board, agent_is_x)`: `ValueError` unless the grid is 3×3 with
      values in 0..2; the X/O swap when the agent is O. */
  function NewBoard(np: seq<int>, agentIsX: bool := true): (r: Result<Board, Error>)
    ensures r.Ok? <==> IsValidNpBoard(np)
    ensures r.Err? ==> r.error == InvalidBoard
    ensures r.Ok? && agentIsX ==> r.value.cells == np
    ensures r.Ok? && !agentIsX ==> forall k :: 0 <= k < 9 ==> r.value.cells[k] == SymbolSwap(np[k])
  {
    if !IsValidNpBoard(np) then Err(InvalidBoard)
    else if agentIsX then Ok(Board(np))
    else Ok(Board(Swap(np)))
  }

  /** `swap_symbols`. */
  function SwapSymbols(b: Board): Board
  {
    Board(Swap(b.cells))
  }

  /** Swapping twice gives the board back, and building a board for an O agent is
      building it for an X agent and swapping. */
  lemma SwapSymbolsProperties(b: Board, np: seq<int>)
    ensures SwapSymbols(SwapSymbols(b)) == b
    ensures NewBoard(np, false).Ok? <==> NewBoard(np, true).Ok?
    ensures NewBoard(np, true).Ok? ==> NewBoard(np, false).value == SwapSymbols(NewBoard(np, true).value)
  {
    SwapProperties(b.cells);
  }

  /** `text_board`, flattened: one symbol per cell, row-major. */
  function TextBoard(b: Board): seq<char>
  {
    Text(b.cells)
  }

  /** `from_text_board` for a flat list of symbols. A list of the wrong length or
      with a symbol outside the maps is rejected: numpy or the constructor raises. */
  function FromTextBoard(t: seq<char>, agentIsX: bool := true): (r: Result<Board, Error>)
    ensures r.Ok? <==> WellFormedText(t)
    ensures r.Err? ==> r.error == InvalidBoard
    ensures r.Ok? && agentIsX ==> TextBoard(r.value) == t
  {
    if |t| != 9 then Err(InvalidBoard)
    else
      match ParseSymbols(t)
      case None => Err(InvalidBoard)
      case Some(v) =>
        var r := NewBoard(v, agentIsX);
        if agentIsX then
          forall i | 0 <= i < 9 ensures Text(r.value.cells)[i] == t[i] {
            assert PositionToValue(t[i]) == Some(v[i]);
          }
          r
        else r
  }

  /** Reading a board's text gives the board back, whichever way round; and reading
      for an O agent is reading for an X agent and swapping. */
  lemma TextRoundTrips(b: Board, t: seq<char>)
    ensures FromTextBoard(TextBoard(b)) == Ok(b)
    ensures FromTextBoard(t, false).Ok? <==> FromTextBoard(t, true).Ok?
    ensures FromTextBoard(t, true).Ok? ==> FromTextBoard(t, false).value == SwapSymbols(FromTextBoard(t, true).value)
  {
    TextRoundTrip(b.cells);
    if |t| == 9 && ParseSymbols(t).Some? {
      SwapSymbolsProperties(b, ParseSymbols(t).value);
    }
  }

  /** `code`. */
  function Code(b: Board): nat
  {
    NpBoardToCode(b.cells)
  }

  /** `from_board_code`: `str(c).zfill(9)` read as nine digits. A negative code
      keeps its `-` sign, which numpy refuses as an integer; a code of ten or more
      digits cannot be reshaped to 3×3; digits above 2 fail validation. */
  function FromBoardCode(c: int): (r: Result<Board, Error>)
    ensures r.Ok? <==> 0 <= c < Pow10(9) && forall i :: 0 <= i < 9 ==> Digits(c, 9)[i] <= 2
    ensures r.Err? ==> r.error == InvalidBoard
    ensures r.Ok? ==> Code(r.value) == c
  {
    if c < 0 || c >= Pow10(9) then Err(InvalidBoard)
    else
      var ds := Digits(c, 9);
      if IsValidNpBoard(ds) then DigitsRoundTrip(c, 9); NewBoard(ds)
      else
        var i :| 0 <= i < 9 && !(0 <= ds[i] <= 2);
        assert Digits(c, 9)[i] > 2;
        NewBoard(ds)
  }

  /** Codes identify boards: decoding a board's code gives the board, and distinct
      boards have distinct codes. */
  lemma CodeRoundTrip(b: Board, b': Board)
    ensures FromBoardCode(Code(b)) == Ok(b)
    ensures Code(b) == Code(b') <==> b == b'
  {
    CodeInjective(b.cells, b'.cells);
  }

  // ---------------------------------------------------------------------------
  // Symmetries

  /** One of the callables `transform` is given: entry `index` of
      `BOARD_SYMMETRY_TRANSFORMS` or of `BOARD_SYMMETRY_TRANSFORMS_INVERSE`. */
  datatype SymmetryFn = Forward(index: nat) | Backward(index: nat)

  /** The transform `f` stands for, as an index into the transform list. */
  function Acting(f: SymmetryFn): nat
    requires f.index < 8
  {
    if f.Forward? then f.index else Symmetry.InverseIndex(f.index)
  }

  /** `f` applied to a grid: a permutation of the nine cells. */
  function Apply(f: SymmetryFn, x: Cells): (r: Cells)
    requires f.index < 8
    ensures forall k :: 0 <= k < 9 ==> r[k] == x[Symmetry.Src(Acting(f), k)]
  {
    Symmetry.Transform(Acting(f), x)
  }

  /** `Apply` is what the listed numpy expression computes. */
  lemma ApplyIsListed(f: SymmetryFn, x: Cells)
    requires f.index < 8
    ensures f.Forward? ==> Apply(f, x) == Symmetry.ListedTransform(f.index, x)
    ensures f.Backward? ==> Apply(f, x) == Symmetry.ListedInverse(f.index, x)
  {
    Symmetry.ListedTransformIsTransform(f.index, x);
    Symmetry.ListedInverseIsTransform(f.index, x);
  }

  /** `transform`: the constructor is called without `agent_is_x`, so nothing is
      swapped. */
  function TransformBoard(b: Board, f: SymmetryFn): Board
    requires f.index < 8
  {
    Board(Apply(f, b.cells))
  }

  /** The inverse listed beside a transform undoes it, and a transform commutes with
      the symbol swap. */
  lemma TransformProperties(b: Board, t: nat)
    requires t < 8
    ensures TransformBoard(TransformBoard(b, Forward(t)), Backward(t)) == b
    ensures TransformBoard(TransformBoard(b, Backward(t)), Forward(t)) == b
    ensures TransformBoard(SwapSymbols(b), Forward(t)) == SwapSymbols(TransformBoard(b, Forward(t)))
    ensures TransformBoard(SwapSymbols(b), Backward(t)) == SwapSymbols(TransformBoard(b, Backward(t)))
  {
    Symmetry.InverseUndoesTransform(t, b.cells);
    Symmetry.SwapCommutes(t, b.cells);
    Symmetry.InverseUndoesTransform(t, Swap(b.cells));
    Symmetry.InverseUndoesTransform(t, b.cells);
    Symmetry.SwapCommutes(Symmetry.InverseIndex(t), b.cells);
  }

  /** The keys `normalization_transform` compares are the codes of the transformed boards. */
  lemma OrbitCodesAreCodes(b: Board)
    ensures forall i :: 0 <= i < 8 ==> Symmetry.OrbitCodes(b.cells)[i] == Code(TransformBoard(b, Forward(i)))
  {
    forall i | 0 <= i < 8 ensures Symmetry.OrbitCodes(b.cells)[i] == Code(TransformBoard(b, Forward(i))) {
      assert Apply(Forward(i), b.cells) == Symmetry.Transform(i, b.cells);
    }
  }

  /** Reading a transformed text board is transforming the board read, whichever
      way round the agent plays. */
  lemma FromTextBoardCommutes(t: nat, text: seq<char>, agentIsX: bool)
    requires t < 8 && |text| == 9
    ensures FromTextBoard(Symmetry.Transform(t, text), agentIsX).Ok? <==> FromTextBoard(text, agentIsX).Ok?
    ensures FromTextBoard(text, agentIsX).Ok? ==>
      FromTextBoard(Symmetry.Transform(t, text), agentIsX).value == TransformBoard(FromTextBoard(text, agentIsX).value, Forward(t))
  {
    Symmetry.ParseCommutes(t, text);
    if ParseSymbols(text).Some? {
      var v: Cells := ParseSymbols(text).value;
      Symmetry.SwapCommutes(t, v);
      assert Apply(Forward(t), v) == Symmetry.Transform(t, v);
      assert Apply(Forward(t), Swap(v)) == Symmetry.Transform(t, Swap(v));
    }
  }

  /** `normalization_transform`: the pair of the first transform in list order whose
      code is least, and its inverse. */
  function NormalizationTransform(b: Board): (r: (SymmetryFn, SymmetryFn))
    ensures r.0.Forward? && r.0.index < 8 && r.1 == Backward(r.0.index)
    ensures forall i :: 0 <= i < 8 ==>
      Code(TransformBoard(b, r.0)) <= Code(TransformBoard(b, Forward(i)))
    ensures forall i :: 0 <= i < r.0.index ==>
      Code(TransformBoard(b, Forward(i))) > Code(TransformBoard(b, r.0))
  {
    MinimalTransformIsLeast(b);
    var t := Symmetry.MinimalTransform(b.cells);
    (Forward(t), Backward(t))
  }

  /** The minimal transform of a board's grid gives the board the least code, and
      every earlier transform a greater one. */
  lemma MinimalTransformIsLeast(b: Board)
    ensures forall i :: 0 <= i < 8 ==>
      Code(TransformBoard(b, Forward(Symmetry.MinimalTransform(b.cells)))) <= Code(TransformBoard(b, Forward(i)))
    ensures forall i :: 0 <= i < Symmetry.MinimalTransform(b.cells) ==>
      Code(TransformBoard(b, Forward(i))) > Code(TransformBoard(b, Forward(Symmetry.MinimalTransform(b.cells))))
  {
    var keys := Symmetry.OrbitCodes(b.cells);
    OrbitCodesAreCodes(b);
  }

  /** The board `normalization_transform` leads to. */
  function Normalized(b: Board): Board
  {
    TransformBoard(b, NormalizationTransform(b).0)
  }

  /** The normalised board is the canonical form of its grid, and a board moved by
      another board's normalising transform is moved by that grid's minimal
      transform. */
  lemma NormalizedIsCanonical(b: Board, a: Board)
    ensures Normalized(b).cells == Symmetry.CanonicalForm(b.cells)
    ensures TransformBoard(a, NormalizationTransform(b).0).cells == Symmetry.Transform(Symmetry.MinimalTransform(b.cells), a.cells)
  {
    var t := Symmetry.MinimalTransform(b.cells);
    assert Apply(Forward(t), b.cells) == Symmetry.Transform(t, b.cells);
    assert Apply(Forward(t), a.cells) == Symmetry.Transform(t, a.cells);
  }

  /** Every board symmetric to `b` (under any listed transform or inverse)
      normalises to the same board, hence to the same code; and the pair's inverse
      recovers `b`. */
  lemma NormalizationInvariant(b: Board, f: SymmetryFn)
    requires f.index < 8
    ensures Normalized(TransformBoard(b, f)) == Normalized(b)
    ensures Code(Normalized(TransformBoard(b, f))) == Code(Normalized(b))
    ensures TransformBoard(Normalized(b), NormalizationTransform(b).1) == b
  {
    var t := Acting(f);
    if f.Forward? {
      assert Apply(f, b.cells) == Symmetry.Transform(t, b.cells);
    } else {
      Symmetry.InverseUndoesTransform(f.index, b.cells);
      assert Apply(f, b.cells) == Symmetry.Transform(t, b.cells);
    }
    Symmetry.CanonicalFormInvariant(t, b.cells);
    assert Normalized(TransformBoard(b, f)).cells == Symmetry.CanonicalForm(Symmetry.Transform(t, b.cells));
    TransformProperties(b, Symmetry.MinimalTransform(b.cells));
  }

  /** The outcome `win_condition` reports does not change under any symmetry. */
  lemma OutcomeInvariant(b: Board, f: SymmetryFn)
    requires f.index < 8
    ensures Winner(TransformBoard(b, f).cells) == Winner(b.cells)
    ensures IsFull(TransformBoard(b, f).cells) == IsFull(b.cells)
  {
    var t := Acting(f);
    if f.Backward? {
      Symmetry.InverseUndoesTransform(f.index, b.cells);
    }
    assert Apply(f, b.cells) == Symmetry.Transform(t, b.cells);
    Symmetry.OutcomeInvariant(t, b.cells);
  }

  // ---------------------------------------------------------------------------
  // Game state

  /** `win_condition`: player 1's lines are scanned before player 2's, each player's
      lines in list order, returning `(player, False)` at the first full line; then
      `(0, True)` when no cell is empty, and `(0, False)` otherwise. */
  method WinCondition(b: Board) returns (winner: int, tie: bool)
    ensures winner == 1 <==> Wins(b.cells, 1)
    ensures winner == 2 <==> !Wins(b.cells, 1) && Wins(b.cells, 2)
    ensures winner == 0 <==> !Wins(b.cells, 1) && !Wins(b.cells, 2)
    ensures tie <==> winner == 0 && IsFull(b.cells)
    ensures winner == Winner(b.cells) && (winner != 0 || tie <==> GameOver(b.cells))
  {
    var x := b.cells;
    var player := 1;
    while player <= 2
      invariant 1 <= player <= 3
      invariant forall p :: 1 <= p < player ==> !Wins(x, p)
    {
      var l := 0;
      while l < |WinConditions|
        invariant 0 <= l <= 8
        invariant forall m :: 0 <= m < l ==> !LineFull(x, m, player)
      {
        var condition := WinConditions[l];
        if x[condition[0]] == player && x[condition[1]] == player && x[condition[2]] == player {
          assert LineFull(x, l, player);
          return player, false;
        }
        l := l + 1;
      }
      player := player + 1;
    }
    var i := 0;
    while i < 9
      invariant 0 <= i <= 9
      invariant forall j :: 0 <= j < i ==> x[j] != 0
    {
      if x[i] == 0 {
        return 0, false;
      }
      i := i + 1;
    }
    return 0, true;
  }

  /** `possible_actions`: one action board per empty cell, in row-major order, each
      all zeros but a 1 ("X") at that cell; a full board yields none. */
  method PossibleActions(b: Board) returns (actions: seq<Board>)
    ensures |actions| == |EmptyCells(b.cells)|
    ensures forall i :: 0 <= i < |actions| ==> actions[i].cells == OneHot(EmptyCells(b.cells)[i], 1)
    ensures actions == [] <==> IsFull(b.cells)
  {
    var x := b.cells;
    actions := [];
    var k := 0;
    while k < 9
      invariant 0 <= k <= 9
      invariant |actions| == |EmptyPrefix(x, k)|
      invariant forall i :: 0 <= i < |actions| ==> actions[i].cells == OneHot(EmptyPrefix(x, k)[i], 1)
    {
      if x[k] == 0 {
        var npAction := new int[9](_ => 0);
        npAction[k] := 1;
        assert npAction[..] == OneHot(k, 1);
        var action := NewBoard(npAction[..]);
        actions := actions + [action.value];
      }
      k := k + 1;
    }
    FullIffNoEmptyCell(x);
  }
}
