/** The 3×3 tic-tac-toe grid shared by both Board classes: the value and symbol
    maps, the X/O swap, validity, the row-major digit code, the eight winning
    lines and the list of empty cells.

    A numpy 3×3 integer array is modelled as the row-major sequence of its nine
    entries: cell (r, c) is index 3 * r + c. */
module Grid {
  import opened Wrappers

  /** The exceptions the modelled code raises. */
  datatype Error =
    | InvalidBoard       // `ValueError("invalid board")` and the errors numpy raises on a malformed array
    | NoPossibleActions  // `ValueError("no possible actions to take in this state")`
    | MissingAgentIsX    // `KeyError: 'agent_is_x'`

  /** A cell value: 0 empty, 1 the acting player ("X"), 2 the opponent ("O"). */
  type Value = v: int | 0 <= v <= 2

  /** `is_valid_np_board`, without the dtype test: nine entries, each in 0..2. */
  predicate IsValidNpBoard(x: seq<int>)
  {
    |x| == 9 && forall i :: 0 <= i < |x| ==> 0 <= x[i] <= 2
  }

  /** The contents of a board that passed validation. */
  type Cells = x: seq<int> | IsValidNpBoard(x) witness [0, 0, 0, 0, 0, 0, 0, 0, 0]

  const EmptyCellsBoard: Cells := [0, 0, 0, 0, 0, 0, 0, 0, 0]

  // ---------------------------------------------------------------------------
  // Symbols

  /** `VALUE_TO_POSITION`. */
  function ValueToPosition(v: Value): char
  {
    if v == 0 then '-' else if v == 1 then 'X' else 'O'
  }

  /** `POSITION_TO_VALUE.get`: `None` for a symbol outside the map. */
  function PositionToValue(c: char): Option<Value>
  {
    if c == '-' then Some(0) else if c == 'X' then Some(1) else if c == 'O' then Some(2) else None
  }

  /** The two symbol maps are mutually inverse on their domains. */
  lemma SymbolMapsInverse(v: Value, c: char)
    ensures PositionToValue(ValueToPosition(v)) == Some(v)
    ensures PositionToValue(c).Some? <==> c == '-' || c == 'X' || c == 'O'
    ensures PositionToValue(c).Some? ==> ValueToPosition(PositionToValue(c).value) == c
  {
  }

  /** `SYMBOL_SWAP`. */
  function SymbolSwap(v: Value): (r: Value)
    ensures r == 0 <==> v == 0
    ensures v != 0 ==> r == 3 - v
  {
    if v == 0 then 0 else if v == 1 then 2 else 1
  }

  /** `np.vectorize(SYMBOL_SWAP.get)` applied to a valid board. */
  function Swap(x: Cells): Cells
  {
    seq(9, i requires 0 <= i < 9 => SymbolSwap(x[i]))
  }

  /** Swapping keeps every empty cell empty, exchanges 1 and 2, and is an involution. */
  lemma SwapProperties(x: Cells)
    ensures forall i :: 0 <= i < 9 ==> (Swap(x)[i] == 0 <==> x[i] == 0)
    ensures forall i :: 0 <= i < 9 && x[i] != 0 ==> Swap(x)[i] == 3 - x[i]
    ensures Swap(Swap(x)) == x
  {
    assert forall i :: 0 <= i < 9 ==> Swap(Swap(x))[i] == x[i];
  }

  /** The empty board is the only grid the swap leaves unchanged. */
  lemma SwapFixesOnlyEmpty(x: Cells)
    ensures Swap(x) == x <==> x == EmptyCellsBoard
  {
    if Swap(x) == x {
      forall i | 0 <= i < 9 ensures x[i] == 0 {
        assert Swap(x)[i] == x[i];
      }
    }
    if x == EmptyCellsBoard {
      assert forall i :: 0 <= i < 9 ==> Swap(x)[i] == x[i];
    }
  }

  /** `np.vectorize(VALUE_TO_POSITION.get)` followed by `flatten`. */
  function Text(x: Cells): seq<char>
  {
    seq(9, i requires 0 <= i < 9 => ValueToPosition(x[i]))
  }

  /** A text board of the schema: nine symbols, each `-`, `X` or `O`. */
  predicate WellFormedText(t: seq<char>)
  {
    |t| == 9 && forall i :: 0 <= i < |t| ==> t[i] == '-' || t[i] == 'X' || t[i] == 'O'
  }

  /** `np.vectorize(POSITION_TO_VALUE.get)` over a text board: `None` as soon as one
      symbol is outside the map (numpy then cannot build a valid integer array). */
  function ParseSymbols(t: seq<char>): (r: Option<seq<Value>>)
    ensures r.Some? <==> forall i :: 0 <= i < |t| ==> PositionToValue(t[i]).Some?
    ensures r.Some? ==> |r.value| == |t|
    ensures r.Some? ==> forall i :: 0 <= i < |t| ==> PositionToValue(t[i]) == Some(r.value[i])
  {
    if t == [] then Some([])
    else
      match (PositionToValue(t[0]), ParseSymbols(t[1..]))
      case (Some(v), Some(rest)) =>
        assert forall i :: 1 <= i < |t| ==> t[i] == t[1..][i - 1];
        Some([v] + rest)
      case (Some(_), None) =>
        assert !PositionToValue(t[1..][0]).Some? || exists i :: 0 <= i < |t| - 1 && !PositionToValue(t[1..][i]).Some?;
        None
      case (None, _) => None
  }

  /** Reading back the text of a board gives the board. */
  lemma {:induction false} TextRoundTrip(x: Cells)
    ensures ParseSymbols(Text(x)) == Some(x)
  {
    var r := ParseSymbols(Text(x));
    assert r.Some?;
    forall i | 0 <= i < 9 ensures r.value[i] == x[i] {
      assert PositionToValue(Text(x)[i]) == Some(r.value[i]);
    }
    assert r.value == x;
  }

  // ---------------------------------------------------------------------------
  // Codes

  function Pow10(n: nat): (r: nat)
    ensures r >= 1
  {
    if n == 0 then 1 else 10 * Pow10(n - 1)
  }

  /** The `n` least significant decimal digits of `c`, most significant first; for
      `0 <= c < 10^n` this is `str(c).zfill(n)`. */
  function Digits(c: nat, n: nat): (ds: seq<int>)
    ensures |ds| == n
    ensures forall i :: 0 <= i < n ==> 0 <= ds[i] <= 9
  {
    if n == 0 then [] else Digits(c / 10, n - 1) + [c % 10]
  }

  /** `int("".join(map(str, ds)))` for single-digit entries: the number the digits
      spell. Spelling it again with `Digits` gives back the digits. */
  function DigitsValue(ds: seq<int>): (r: nat)
    requires forall i :: 0 <= i < |ds| ==> 0 <= ds[i] <= 9
    ensures r < Pow10(|ds|)
    ensures Digits(r, |ds|) == ds
  {
    if ds == [] then 0
    else
      var p := DigitsValue(ds[..|ds| - 1]);
      var d := ds[|ds| - 1];
      assert (p * 10 + d) / 10 == p && (p * 10 + d) % 10 == d;
      assert ds == ds[..|ds| - 1] + [d];
      p * 10 + d
  }

  /** `Digits(c, n)` is the only spelling of a number below `10^n` in `n` digits:
      its value is `c` again. */
  lemma {:induction false} DigitsRoundTrip(c: nat, n: nat)
    requires c < Pow10(n)
    ensures DigitsValue(Digits(c, n)) == c
  {
    if n > 0 {
      var ds := Digits(c, n);
      var q, d := c / 10, c % 10;
      assert c == 10 * q + d && 10 * q < 10 * Pow10(n - 1);
      assert ds[..n - 1] == Digits(q, n - 1) && ds[n - 1] == d;
      DigitsRoundTrip(q, n - 1);
      assert DigitsValue(ds) == DigitsValue(ds[..n - 1]) * 10 + d;
    }
  }

  /** `np_board_to_code`: the row-major digit concatenation. */
  function NpBoardToCode(x: Cells): (r: nat)
    ensures r < Pow10(9)
    ensures Digits(r, 9) == x
  {
    DigitsValue(x)
  }

  /** Distinct boards have distinct codes. */
  lemma CodeInjective(x: Cells, y: Cells)
    ensures NpBoardToCode(x) == NpBoardToCode(y) <==> x == y
  {
  }

  // ---------------------------------------------------------------------------
  // Winning lines

  /** `WIN_CONDITIONS`: three rows, three columns, the diagonal and the anti-diagonal. */
  const WinConditions: seq<seq<nat>> :=
    [[0, 1, 2], [3, 4, 5], [6, 7, 8], [0, 3, 6], [1, 4, 7], [2, 5, 8], [0, 4, 8], [2, 4, 6]]

  /** Cell `a` (0..2) of winning line `l` (0..7). */
  function LineCell(l: nat, a: nat): (k: nat)
    requires l < 8 && a < 3
    ensures k < 9
  {
    WinConditions[l][a]
  }

  /** `np.all(flat_board[condition] == player)` for line `l`. */
  predicate LineFull(x: Cells, l: nat, p: int)
    requires l < 8
  {
    x[LineCell(l, 0)] == p && x[LineCell(l, 1)] == p && x[LineCell(l, 2)] == p
  }

  /** Player `p` holds a whole line. */
  predicate Wins(x: Cells, p: int)
  {
    exists l :: 0 <= l < 8 && LineFull(x, l, p)
  }

  /** `np.all(board != 0)`. */
  predicate IsFull(x: Cells)
  {
    forall i :: 0 <= i < 9 ==> x[i] != 0
  }

  /** The winner `win_condition` reports: player 1 is looked at before player 2. */
  function Winner(x: Cells): int
  {
    if Wins(x, 1) then 1 else if Wins(x, 2) then 2 else 0
  }

  /** The game is over after this board: somebody won or it is a tie. */
  predicate GameOver(x: Cells)
  {
    Winner(x) != 0 || IsFull(x)
  }

  /** The X/O swap exchanges the players' lines and keeps fullness. */
  lemma SwapExchangesWins(x: Cells, p: int)
    requires p == 1 || p == 2
    ensures Wins(Swap(x), p) <==> Wins(x, 3 - p)
    ensures IsFull(Swap(x)) <==> IsFull(x)
  {
    SwapProperties(x);
    if Wins(Swap(x), p) {
      var l :| 0 <= l < 8 && LineFull(Swap(x), l, p);
      assert LineFull(x, l, 3 - p);
    }
    if Wins(x, 3 - p) {
      var l :| 0 <= l < 8 && LineFull(x, l, 3 - p);
      assert LineFull(Swap(x), l, p);
    }
  }

  // ---------------------------------------------------------------------------
  // Actions

  /** A 3×3 zero array with `v` written at cell `k`. */
  function OneHot(k: nat, v: int): (r: seq<int>)
    requires k < 9
    ensures |r| == 9
  {
    seq(9, i requires 0 <= i < 9 => if i == k then v else 0)
  }

  /** The row-major positions `< n` of the empty cells (`np.where(board == 0)`). */
  function EmptyPrefix(x: Cells, n: nat): (r: seq<nat>)
    requires n <= 9
    ensures forall j :: 0 <= j < |r| ==> r[j] < n && x[r[j]] == 0
    ensures forall k {:trigger k in r} :: 0 <= k < n && x[k] == 0 ==> k in r
    ensures forall j, j' :: 0 <= j < j' < |r| ==> r[j] < r[j']
  {
    if n == 0 then [] else EmptyPrefix(x, n - 1) + (if x[n - 1] == 0 then [n - 1] else [])
  }

  /** All empty cells in row-major order. */
  function EmptyCells(x: Cells): seq<nat>
  {
    EmptyPrefix(x, 9)
  }

  /** A board is full exactly when it has no empty cell. */
  lemma FullIffNoEmptyCell(x: Cells)
    ensures IsFull(x) <==> EmptyCells(x) == []
  {
    var e := EmptyCells(x);
    if !IsFull(x) {
      var k :| 0 <= k < 9 && x[k] == 0;
      assert k in e;
    }
    if e != [] {
      assert x[e[0]] == 0;
    }
  }

  /** Elementwise sum of two 3×3 arrays (`np_board + np_action`). */
  function Add(x: seq<int>, y: seq<int>): (r: seq<int>)
    requires |x| == 9 && |y| == 9
    ensures |r| == 9
  {
    seq(9, i requires 0 <= i < 9 => x[i] + y[i])
  }

  /** `x` with cell `k` set to `v`. */
  function Place(x: Cells, k: nat, v: Value): (r: Cells)
    requires k < 9
    ensures r[k] == v && forall i :: 0 <= i < 9 && i != k ==> r[i] == x[i]
  {
    x[k := v]
  }

  /** Adding a one-hot `v` on an empty cell is placing `v` there. */
  lemma AddOneHotIsPlace(x: Cells, k: nat, v: Value)
    requires k < 9 && x[k] == 0
    ensures Add(x, OneHot(k, v)) == Place(x, k, v)
  {
    assert forall i :: 0 <= i < 9 ==> Add(x, OneHot(k, v))[i] == Place(x, k, v)[i];
  }

  /** Placing a mark on an empty cell of the first `n` removes exactly that cell
      from the empty-cell list. */
  lemma {:induction false} PlaceShrinksEmptyPrefix(x: Cells, k: nat, v: Value, n: nat)
    requires k < 9 && x[k] == 0 && v != 0 && n <= 9
    ensures |EmptyPrefix(Place(x, k, v), n)| == if k < n then |EmptyPrefix(x, n)| - 1 else |EmptyPrefix(x, n)|
  {
    if n > 0 {
      PlaceShrinksEmptyPrefix(x, k, v, n - 1);
    }
  }

  /** A game with one more mark has one empty cell fewer. */
  lemma PlaceShrinksEmptyCells(x: Cells, k: nat, v: Value)
    requires k < 9 && x[k] == 0 && v != 0
    ensures |EmptyCells(Place(x, k, v))| == |EmptyCells(x)| - 1
  {
    PlaceShrinksEmptyPrefix(x, k, v, 9);
  }

  /** A mark placed on a board without a full line can only complete lines of its
      own player: whoever wins afterwards is the player who just moved. */
  lemma {:induction false} OnlyMoverCanWin(x: Cells, k: nat, v: Value, p: int)
    requires k < 9 && x[k] == 0 && v != 0
    requires !Wins(x, 1) && !Wins(x, 2)
    requires (p == 1 || p == 2) && Wins(Place(x, k, v), p)
    ensures p == v
  {
    var l :| 0 <= l < 8 && LineFull(Place(x, k, v), l, p);
    OtherLineKept(x, k, v, l, p);
  }

  /** A line full of some other player's marks after `v` is placed was already
      full before. */
  lemma OtherLineKept(x: Cells, k: nat, v: Value, l: nat, p: int)
    requires k < 9 && l < 8
    ensures p != v && LineFull(Place(x, k, v), l, p) ==> LineFull(x, l, p)
  {
  }
}
