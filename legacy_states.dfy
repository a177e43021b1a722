/** The older `Board` class at the top of the `tictactoe` directory. It shares the
    symbol maps and the eight forward transforms with the current class but lists
    no inverses, and its constructor defaults to `agent_is_x=False`: every board
    built without the flag stores the X/O swap of the grid it was given. */
module LegacyStates {
  import opened Wrappers
  import opened Grid
  import Symmetry

  datatype LegacyBoard = LegacyBoard(cells: Cells)

  /** `Board(np_board, agent_is_x=False)`: `ValueError` unless the grid is 3×3 with
      values in 0..2; the X/O swap unless the agent is declared to be X. */
  function NewLegacyBoard(np: seq<int>, agentIsX: bool := false): (r: Result<LegacyBoard, Error>)
    ensures r.Ok? <==> IsValidNpBoard(np)
    ensures r.Err? ==> r.error == InvalidBoard
    ensures r.Ok? && agentIsX ==> r.value.cells == np
    ensures r.Ok? && !agentIsX ==> forall k :: 0 <= k < 9 ==> r.value.cells[k] == SymbolSwap(np[k])
  {
    if !IsValidNpBoard(np) then Err(InvalidBoard)
    else if agentIsX then Ok(LegacyBoard(np))
    else Ok(LegacyBoard(Swap(np)))
  }

  /** `from_np_text_board` for a flat array of symbols; unlike the constructor it
      defaults to `agent_is_x=True`, so it swaps only when asked. */
  function FromNpTextBoard(t: seq<char>, agentIsX: bool := true): (r: Result<LegacyBoard, Error>)
    ensures r.Ok? <==> WellFormedText(t)
    ensures r.Err? ==> r.error == InvalidBoard
    ensures r.Ok? && agentIsX ==> Text(r.value.cells) == t
    ensures r.Ok? && !agentIsX ==> Text(Swap(r.value.cells)) == t
  {
    if |t| != 9 then Err(InvalidBoard)
    else
      match ParseSymbols(t)
      case None => Err(InvalidBoard)
      case Some(v) =>
        var r := NewLegacyBoard(v, agentIsX);
        forall i | 0 <= i < 9 ensures ValueToPosition(v[i]) == t[i] {
          assert PositionToValue(t[i]) == Some(v[i]);
        }
        SwapProperties(v);
        assert Text(v) == t;
        r
  }

  /** `code`: the row-major digit concatenation. */
  function Code(b: LegacyBoard): nat
  {
    NpBoardToCode(b.cells)
  }

  /** `from_board_code` as written: the nine digits of `str(c).zfill(9)` go to the
      constructor without `agent_is_x`, so the result holds their X/O swap. */
  function FromBoardCode(c: int): (r: Result<LegacyBoard, Error>)
    ensures r.Ok? <==> 0 <= c < Pow10(9) && forall i :: 0 <= i < 9 ==> Digits(c, 9)[i] <= 2
    ensures r.Err? ==> r.error == InvalidBoard
    ensures r.Ok? ==> Code(LegacyBoard(Swap(r.value.cells))) == c
  {
    if c < 0 || c >= Pow10(9) then Err(InvalidBoard)
    else
      var ds := Digits(c, 9);
      if IsValidNpBoard(ds) then
        assert forall i :: 0 <= i < 9 ==> ds[i] <= 2;
        DigitsRoundTrip(c, 9);
        SwapProperties(ds);
        NewLegacyBoard(ds)
      else
        var i :| 0 <= i < 9 && !(0 <= ds[i] <= 2);
        assert Digits(c, 9)[i] > 2;
        NewLegacyBoard(ds)
  }

  /** Decoding a board's code gives the swapped board, which is the board itself
      only when the board is empty. */
  lemma CodeRoundTripSwaps(b: LegacyBoard)
    ensures FromBoardCode(Code(b)) == Ok(LegacyBoard(Swap(b.cells)))
    ensures FromBoardCode(Code(b)) == Ok(b) <==> b.cells == EmptyCellsBoard
  {
    var x := b.cells;
    assert Digits(Code(b), 9) == x;
    SwapFixesOnlyEmpty(x);
  }

  /** The code of the board with X in the top-left corner alone. */
  lemma TopLeftCode()
    ensures Code(LegacyBoard([1, 0, 0, 0, 0, 0, 0, 0, 0])) == 100000000
  {
    assert Digits(1, 1) == [1] by { assert Digits(0, 0) == []; }
    assert Digits(10, 2) == [1, 0] by { assert Digits(1, 1) == [1]; }
    assert Digits(100, 3) == [1, 0, 0] by { assert Digits(10, 2) == [1, 0]; }
    assert Digits(1000, 4) == [1, 0, 0, 0] by { assert Digits(100, 3) == [1, 0, 0]; }
    assert Digits(10000, 5) == [1, 0, 0, 0, 0] by { assert Digits(1000, 4) == [1, 0, 0, 0]; }
    assert Digits(100000, 6) == [1, 0, 0, 0, 0, 0] by { assert Digits(10000, 5) == [1, 0, 0, 0, 0]; }
    assert Digits(1000000, 7) == [1, 0, 0, 0, 0, 0, 0] by { assert Digits(100000, 6) == [1, 0, 0, 0, 0, 0]; }
    assert Digits(10000000, 8) == [1, 0, 0, 0, 0, 0, 0, 0] by { assert Digits(1000000, 7) == [1, 0, 0, 0, 0, 0, 0]; }
    assert Digits(100000000, 9) == [1, 0, 0, 0, 0, 0, 0, 0, 0] by { assert Digits(10000000, 8) == [1, 0, 0, 0, 0, 0, 0, 0]; }
    DigitsRoundTrip(100000000, 9);
  }

  /** A board with X in the top-left corner does not survive its own code: code
      100000000 decodes to O in that corner. */
  lemma CodeRoundTripCounterexample()
    ensures FromBoardCode(100000000) == Ok(LegacyBoard([2, 0, 0, 0, 0, 0, 0, 0, 0]))
    ensures FromBoardCode(100000000) != Ok(LegacyBoard([1, 0, 0, 0, 0, 0, 0, 0, 0]))
  {
    var b := LegacyBoard([1, 0, 0, 0, 0, 0, 0, 0, 0]);
    TopLeftCode();
    CodeRoundTripSwaps(b);
    assert Swap(b.cells) == [2, 0, 0, 0, 0, 0, 0, 0, 0];
  }

  /** `normalization_transform`: the first of the eight transforms, in list order,
      whose transformed grid has the least code. */
  function NormalizationTransform(b: LegacyBoard): (t: nat)
    ensures t < 8
    ensures forall i :: 0 <= i < 8 ==> Symmetry.OrbitCode(b.cells, t) <= Symmetry.OrbitCode(b.cells, i)
    ensures forall i :: 0 <= i < t ==> Symmetry.OrbitCode(b.cells, i) > Symmetry.OrbitCode(b.cells, t)
  {
    var keys := Symmetry.OrbitCodes(b.cells);
    assert forall i :: 0 <= i < 8 ==> keys[i] == Symmetry.OrbitCode(b.cells, i);
    Symmetry.MinimalTransform(b.cells)
  }

  /** `transform` as written: the transformed grid goes to the constructor without
      `agent_is_x`, so the result holds its X/O swap. */
  function TransformBoard(b: LegacyBoard, t: nat): (r: LegacyBoard)
    requires t < 8
    ensures forall k :: 0 <= k < 9 ==> r.cells[k] == SymbolSwap(b.cells[Symmetry.Src(t, k)])
  {
    NewLegacyBoard(Symmetry.Transform(t, b.cells)).value
  }

  /** Because of the swap, a transformed board is won by the other player. */
  lemma TransformSwapsWinner(b: LegacyBoard, t: nat, p: int)
    requires t < 8 && (p == 1 || p == 2)
    ensures Wins(TransformBoard(b, t).cells, p) <==> Wins(b.cells, 3 - p)
  {
    var y: Cells := Symmetry.Transform(t, b.cells);
    assert TransformBoard(b, t).cells == Swap(y);
    SwapExchangesWins(y, p);
    Symmetry.OutcomeInvariant(t, b.cells);
  }
}
