/** The eight symmetries of the square as the source builds them from numpy's
    `rot90`, `flipud`, `fliplr` and `transpose`, their inverses, and the facts
    the rest of the model relies on: each is a permutation of the nine cells, each
    listed inverse undoes its transform, the eight are closed under composition,
    and lines, fullness and the X/O swap are unaffected by them. Then the choice
    of the transform with the minimal code and why it is a canonical form. */
module Symmetry {
  import opened Wrappers
  import opened Grid

  // ---------------------------------------------------------------------------
  // numpy primitives on a row-major 3×3 array

  /** `np.rot90(x)`: a quarter turn counter-clockwise, `out[r][c] == x[c][2 - r]`. */
  function Rot90Once<T>(x: seq<T>): (r: seq<T>)
    requires |x| == 9
    ensures |r| == 9
  {
    seq(9, k requires 0 <= k < 9 => x[3 * (k % 3) + 2 - k / 3])
  }

  function RotTimes<T>(x: seq<T>, n: nat): (r: seq<T>)
    requires |x| == 9
    ensures |r| == 9
  {
    if n == 0 then x else Rot90Once(RotTimes(x, n - 1))
  }

  /** `np.rot90(x, k)`: numpy reduces `k` modulo 4 (so `-1` is three quarter turns,
      which is also what Dafny's Euclidean `%` gives). */
  function Rot90<T>(x: seq<T>, k: int := 1): (r: seq<T>)
    requires |x| == 9
    ensures |r| == 9
  {
    RotTimes(x, k % 4)
  }

  /** `np.flipud(x)`: `out[r][c] == x[2 - r][c]`. */
  function FlipUD<T>(x: seq<T>): (r: seq<T>)
    requires |x| == 9
    ensures |r| == 9
  {
    seq(9, k requires 0 <= k < 9 => x[3 * (2 - k / 3) + k % 3])
  }

  /** `np.fliplr(x)`: `out[r][c] == x[r][2 - c]`. */
  function FlipLR<T>(x: seq<T>): (r: seq<T>)
    requires |x| == 9
    ensures |r| == 9
  {
    seq(9, k requires 0 <= k < 9 => x[3 * (k / 3) + 2 - k % 3])
  }

  /** `np.transpose(x)`: `out[r][c] == x[c][r]`. */
  function Transpose<T>(x: seq<T>): (r: seq<T>)
    requires |x| == 9
    ensures |r| == 9
  {
    seq(9, k requires 0 <= k < 9 => x[3 * (k % 3) + k / 3])
  }

  // ---------------------------------------------------------------------------
  // The eight transforms

  /** Every symmetry of the square reads input cell (r, c) for output cell (r, c)
      after optionally exchanging row and column and then optionally mirroring the
      row and the column. */
  datatype Sym = Sym(exchange: bool, flipRow: bool, flipCol: bool)

  /** The input row and column that symmetry `s` reads for output cell (r, c). */
  function MoveRow(s: Sym, r: nat, c: nat): (r': nat)
    requires r < 3 && c < 3
    ensures r' < 3
  {
    var r1 := if s.exchange then c else r;
    if s.flipRow then 2 - r1 else r1
  }

  function MoveCol(s: Sym, r: nat, c: nat): (c': nat)
    requires r < 3 && c < 3
    ensures c' < 3
  {
    var c1 := if s.exchange then r else c;
    if s.flipCol then 2 - c1 else c1
  }

  /** The input cell that symmetry `s` moves to cell `k`. */
  function Move(s: Sym, k: nat): (m: nat)
    requires k < 9
    ensures m < 9
    ensures m / 3 == MoveRow(s, k / 3, k % 3) && m % 3 == MoveCol(s, k / 3, k % 3)
  {
    3 * MoveRow(s, k / 3, k % 3) + MoveCol(s, k / 3, k % 3)
  }

  /** Exchanging and mirroring twice is exchanging and mirroring once: reading
      through `a` and then through `b` is reading through `Then(a, b)`. */
  function Then(a: Sym, b: Sym): (s: Sym)
  {
    Sym(a.exchange != b.exchange,
        (if b.exchange then a.flipCol else a.flipRow) != b.flipRow,
        (if b.exchange then a.flipRow else a.flipCol) != b.flipCol)
  }

  lemma MoveThen(a: Sym, b: Sym)
    ensures forall k :: 0 <= k < 9 ==> Move(b, Move(a, k)) == Move(Then(a, b), k)
  {
    forall k | 0 <= k < 9 ensures Move(b, Move(a, k)) == Move(Then(a, b), k) {
      var r, c := k / 3, k % 3;
      var m := Move(a, k);
      assert MoveRow(b, m / 3, m % 3) == MoveRow(Then(a, b), r, c);
      assert MoveCol(b, m / 3, m % 3) == MoveCol(Then(a, b), r, c);
    }
  }

  /** The shape of transform `t` of the source's list. */
  function SymOf(t: nat): Sym
    requires t < 8
  {
    if t == 0 then Sym(false, false, false)      // identity
    else if t == 1 then Sym(true, false, true)   // rotation by 90 degrees
    else if t == 2 then Sym(false, true, true)   // rotation by 180 degrees
    else if t == 3 then Sym(true, true, false)   // rotation by 270 degrees
    else if t == 4 then Sym(false, true, false)  // horizontal reflection
    else if t == 5 then Sym(false, false, true)  // vertical reflection
    else if t == 6 then Sym(true, false, false)  // diagonal reflection
    else Sym(true, true, true)                   // anti-diagonal reflection
  }

  /** The position of a symmetry in the source's list: all eight shapes occur. */
  function IndexOf(s: Sym): (t: nat)
    ensures t < 8 && SymOf(t) == s
  {
    if !s.exchange then
      (if s.flipRow then (if s.flipCol then 2 else 4) else (if s.flipCol then 5 else 0))
    else
      (if s.flipRow then (if s.flipCol then 7 else 3) else (if s.flipCol then 1 else 6))
  }

  /** A quarter turn reads through the shape of transform 1. */
  lemma RotOnceIndex<T>(x: seq<T>)
    requires |x| == 9
    ensures forall k :: 0 <= k < 9 ==> Rot90Once(x)[k] == x[Move(SymOf(1), k)]
  {
  }

  /** The shape of `n` quarter turns. */
  function RotSym(n: nat): Sym
  {
    if n == 0 then SymOf(0) else Then(SymOf(1), RotSym(n - 1))
  }

  lemma {:induction false} RotTimesIndex<T>(x: seq<T>, n: nat)
    requires |x| == 9
    ensures forall k :: 0 <= k < 9 ==> RotTimes(x, n)[k] == x[Move(RotSym(n), k)]
  {
    if n > 0 {
      RotTimesIndex(x, n - 1);
      RotOnceIndex(RotTimes(x, n - 1));
      MoveThen(SymOf(1), RotSym(n - 1));
    }
  }

  /** Four quarter turns are no turn: the shape of `n` quarter turns is that of
      transform `n % 4`. */
  lemma {:induction false} RotSymPeriod(n: nat)
    ensures RotSym(n) == SymOf(n % 4)
  {
    if n > 0 {
      RotSymPeriod(n - 1);
      var m := (n - 1) % 4;
      assert n % 4 == (m + 1) % 4;
      assert m == 0 || m == 1 || m == 2 || m == 3;
    }
  }

  /** The cell of the input that transform `t` moves to cell `k`, one row per
      transform of the source's list (`SrcIsMove`: row `t` is shape `SymOf(t)`). */
  const SrcTable: seq<seq<nat>> :=
    [[0, 1, 2, 3, 4, 5, 6, 7, 8], [2, 5, 8, 1, 4, 7, 0, 3, 6],
     [8, 7, 6, 5, 4, 3, 2, 1, 0], [6, 3, 0, 7, 4, 1, 8, 5, 2],
     [6, 7, 8, 3, 4, 5, 0, 1, 2], [2, 1, 0, 5, 4, 3, 8, 7, 6],
     [0, 3, 6, 1, 4, 7, 2, 5, 8], [8, 5, 2, 7, 4, 1, 6, 3, 0]]

  function Src(t: nat, k: nat): (s: nat)
    requires t < 8 && k < 9
    ensures s < 9
  {
    SrcTable[t][k]
  }

  lemma SrcIsMove(t: nat, k: nat)
    requires t < 8 && k < 9
    ensures Src(t, k) == Move(SymOf(t), k)
  {
    var r, c := k / 3, k % 3;
    assert k == 3 * r + c && (r == 0 || r == 1 || r == 2) && (c == 0 || c == 1 || c == 2);
    assert Move(SymOf(t), k) == 3 * MoveRow(SymOf(t), r, c) + MoveCol(SymOf(t), r, c);
    assert t == 0 || t == 1 || t == 2 || t == 3 || t == 4 || t == 5 || t == 6 || t == 7;
  }

  /** Transform `t` by where it moves the cells: output cell `k` is input cell
      `Src(t, k)`. */
  function Transform<T>(t: nat, x: seq<T>): (r: seq<T>)
    requires t < 8 && |x| == 9
    ensures |r| == 9
    ensures forall k :: 0 <= k < 9 ==> r[k] == x[Src(t, k)]
  {
    seq(9, k requires 0 <= k < 9 => x[Src(t, k)])
  }

  /** `BOARD_SYMMETRY_TRANSFORMS[t]`, in numpy's terms. */
  function ListedTransform<T>(t: nat, x: seq<T>): seq<T>
    requires t < 8 && |x| == 9
  {
    if t == 0 then x
    else if t == 1 then Rot90(x)
    else if t == 2 then Rot90(x, 2)
    else if t == 3 then Rot90(x, 3)
    else if t == 4 then FlipUD(x)
    else if t == 5 then FlipLR(x)
    else if t == 6 then Transpose(x)
    else Rot90(FlipUD(x))
  }

  /** `BOARD_SYMMETRY_TRANSFORMS_INVERSE[t]`, in numpy's terms. */
  function ListedInverse<T>(t: nat, x: seq<T>): seq<T>
    requires t < 8 && |x| == 9
  {
    if t == 0 then x
    else if t == 1 then Rot90(x, -1)
    else if t == 2 then Rot90(x, 2)
    else if t == 3 then Rot90(x, 1)
    else if t == 4 then FlipUD(x)
    else if t == 5 then FlipLR(x)
    else if t == 6 then Transpose(x)
    else FlipUD(Rot90(x, -1))
  }

  /** Transform 0 leaves every cell where it is. */
  lemma IdentityIsTransform<T>(x: seq<T>)
    requires |x| == 9
    ensures Transform(0, x) == x
  {
    forall k | 0 <= k < 9 ensures Transform(0, x)[k] == x[k] {
      assert k == 0 || k == 1 || k == 2 || k == 3 || k == 4 || k == 5 || k == 6 || k == 7 || k == 8;
    }
  }

  /** `np.rot90(x, k)` for any `k` is transform `k % 4`. */
  lemma Rot90IsTransform<T>(x: seq<T>, k: int)
    requires |x| == 9
    ensures Rot90(x, k) == Transform(k % 4, x)
  {
    var n := k % 4;
    RotTimesIndex(x, n);
    RotSymPeriod(n);
    forall j | 0 <= j < 9 ensures Rot90(x, k)[j] == Transform(n, x)[j] {
      SrcIsMove(n, j);
    }
  }

  /** numpy's rotations by quarter turns are transforms 1, 2 and 3. */
  lemma RotationsAreTransforms<T>(x: seq<T>)
    requires |x| == 9
    ensures Rot90(x) == Rot90(x, 1) == Transform(1, x)
    ensures Rot90(x, 2) == Transform(2, x)
    ensures Rot90(x, 3) == Rot90(x, -1) == Transform(3, x)
  {
    assert 1 % 4 == 1 && 2 % 4 == 2 && 3 % 4 == 3 && -1 % 4 == 3;
    Rot90IsTransform(x, 1);
    Rot90IsTransform(x, 2);
    Rot90IsTransform(x, 3);
    Rot90IsTransform(x, -1);
  }

  /** numpy's `flipud`, `fliplr` and `transpose` are transforms 4, 5 and 6. */
  lemma FlipUDIsTransform<T>(x: seq<T>)
    requires |x| == 9
    ensures FlipUD(x) == Transform(4, x)
  {
    forall k | 0 <= k < 9 ensures FlipUD(x)[k] == x[Src(4, k)] {
      assert k == 0 || k == 1 || k == 2 || k == 3 || k == 4 || k == 5 || k == 6 || k == 7 || k == 8;
    }
  }

  lemma FlipLRIsTransform<T>(x: seq<T>)
    requires |x| == 9
    ensures FlipLR(x) == Transform(5, x)
  {
    forall k | 0 <= k < 9 ensures FlipLR(x)[k] == x[Src(5, k)] {
      assert k == 0 || k == 1 || k == 2 || k == 3 || k == 4 || k == 5 || k == 6 || k == 7 || k == 8;
    }
  }

  lemma TransposeIsTransform<T>(x: seq<T>)
    requires |x| == 9
    ensures Transpose(x) == Transform(6, x)
  {
    forall k | 0 <= k < 9 ensures Transpose(x)[k] == x[Src(6, k)] {
      assert k == 0 || k == 1 || k == 2 || k == 3 || k == 4 || k == 5 || k == 6 || k == 7 || k == 8;
    }
  }

  lemma ReflectionsAreTransforms<T>(x: seq<T>)
    requires |x| == 9
    ensures FlipUD(x) == Transform(4, x)
    ensures FlipLR(x) == Transform(5, x)
    ensures Transpose(x) == Transform(6, x)
  {
    FlipUDIsTransform(x);
    FlipLRIsTransform(x);
    TransposeIsTransform(x);
  }

  /** Each transform of the source's list moves the cells as `Src` says. */
  lemma ListedTransformIsTransform<T>(t: nat, x: seq<T>)
    requires t < 8 && |x| == 9
    ensures ListedTransform(t, x) == Transform(t, x)
  {
    IdentityIsTransform(x);
    RotationsAreTransforms(x);
    ReflectionsAreTransforms(x);
    if t == 7 {
      // a quarter turn of the horizontal reflection
      RotationsAreTransforms(FlipUD(x));
      TransformCompose(1, 4, x);
      assert Compose(1, 4) == 7;
    }
  }

  /** The position of `BOARD_SYMMETRY_TRANSFORMS_INVERSE[t]`'s effect in the list of
      transforms: the two rotations by a quarter turn are swapped, every other
      transform is its own inverse. */
  function InverseIndex(t: nat): (u: nat)
    requires t < 8
    ensures u < 8
  {
    if t == 1 then 3 else if t == 3 then 1 else t
  }

  /** Each inverse of the source's list moves the cells as transform
      `InverseIndex(t)` does. */
  lemma ListedInverseIsTransform<T>(t: nat, x: seq<T>)
    requires t < 8 && |x| == 9
    ensures ListedInverse(t, x) == Transform(InverseIndex(t), x)
  {
    IdentityIsTransform(x);
    RotationsAreTransforms(x);
    ReflectionsAreTransforms(x);
    if t == 7 {
      // the horizontal reflection of three quarter turns
      ReflectionsAreTransforms(Rot90(x, -1));
      TransformCompose(4, 3, x);
      assert Compose(4, 3) == 7;
    }
  }

  /** Reading through transform `i` and then through transform `j` is reading
      through the transform of shape `Then(SymOf(i), SymOf(j))`. */
  lemma SrcThen(i: nat, j: nat)
    requires i < 8 && j < 8
    ensures forall k :: 0 <= k < 9 ==> Src(j, Src(i, k)) == Src(IndexOf(Then(SymOf(i), SymOf(j))), k)
  {
    var m := IndexOf(Then(SymOf(i), SymOf(j)));
    MoveThen(SymOf(i), SymOf(j));
    forall k | 0 <= k < 9 ensures Src(j, Src(i, k)) == Src(m, k) {
      SrcIsMove(i, k);
      SrcIsMove(j, Src(i, k));
      SrcIsMove(m, k);
    }
  }

  /** Which transform of the list reading through transform `i` and then through
      transform `j` amounts to. */
  const ComposeTable: seq<seq<nat>> :=
    [[0, 1, 2, 3, 4, 5, 6, 7], [1, 2, 3, 0, 7, 6, 4, 5],
     [2, 3, 0, 1, 5, 4, 7, 6], [3, 0, 1, 2, 6, 7, 5, 4],
     [4, 6, 5, 7, 0, 2, 1, 3], [5, 7, 4, 6, 2, 0, 3, 1],
     [6, 5, 7, 4, 3, 1, 0, 2], [7, 4, 6, 5, 1, 3, 2, 0]]

  lemma ComposeTableIsThen(i: nat, j: nat)
    requires i < 8 && j < 8
    ensures ComposeTable[i][j] == IndexOf(Then(SymOf(i), SymOf(j)))
  {
    assert i == 0 || i == 1 || i == 2 || i == 3 || i == 4 || i == 5 || i == 6 || i == 7;
    assert j == 0 || j == 1 || j == 2 || j == 3 || j == 4 || j == 5 || j == 6 || j == 7;
  }

  /** Applying transform `j` and then transform `i` is applying transform `Compose(i, j)`. */
  function Compose(i: nat, j: nat): (m: nat)
    requires i < 8 && j < 8
    ensures m < 8
    ensures forall k :: 0 <= k < 9 ==> Src(j, Src(i, k)) == Src(m, k)
  {
    SrcThen(i, j);
    ComposeTableIsThen(i, j);
    ComposeTable[i][j]
  }

  /** `Transform(i, Transform(j, x)) == Transform(Compose(i, j), x)`: the eight are closed under composition. */
  lemma TransformCompose<T>(i: nat, j: nat, x: seq<T>)
    requires i < 8 && j < 8 && |x| == 9
    ensures Transform(i, Transform(j, x)) == Transform(Compose(i, j), x)
  {
    assert forall k :: 0 <= k < 9 ==> Transform(i, Transform(j, x))[k] == Transform(Compose(i, j), x)[k];
  }

  /** Transform `InverseIndex(t)` moves every cell back to where `t` took it from. */
  lemma SrcInverse(t: nat, k: nat)
    requires t < 8 && k < 9
    ensures Src(t, Src(InverseIndex(t), k)) == k
    ensures Src(InverseIndex(t), Src(t, k)) == k
  {
    var r, c := k / 3, k % 3;
    assert k == 3 * r + c && (r == 0 || r == 1 || r == 2) && (c == 0 || c == 1 || c == 2);
    assert Move(SymOf(t), k) == 3 * MoveRow(SymOf(t), r, c) + MoveCol(SymOf(t), r, c);
    assert t == 0 || t == 1 || t == 2 || t == 3 || t == 4 || t == 5 || t == 6 || t == 7;
  }

  /** Transform `InverseIndex(t)`, which `BOARD_SYMMETRY_TRANSFORMS_INVERSE[t]`
      computes, undoes transform `t` on either side. */
  lemma InverseUndoesTransform<T>(t: nat, x: seq<T>)
    requires t < 8 && |x| == 9
    ensures Transform(InverseIndex(t), Transform(t, x)) == x
    ensures Transform(t, Transform(InverseIndex(t), x)) == x
  {
    var u := InverseIndex(t);
    forall k | 0 <= k < 9 ensures Transform(u, Transform(t, x))[k] == x[k] && Transform(t, Transform(u, x))[k] == x[k] {
      SrcInverse(t, k);
    }
  }

  // ---------------------------------------------------------------------------
  // What the transforms leave unchanged

  /** A quarter turn reads each winning line of its output from a winning line of
      its input. */
  lemma RotationCarriesLines(x: Cells, p: int)
    ensures Wins(Transform(1, x), p) ==> Wins(x, p)
  {
    if Wins(Transform(1, x), p) {
      var l :| 0 <= l < 8 && LineFull(Transform(1, x), l, p);
      if l == 0 { assert LineFull(x, 5, p); }
      else if l == 1 { assert LineFull(x, 4, p); }
      else if l == 2 { assert LineFull(x, 3, p); }
      else if l == 3 { assert LineFull(x, 0, p); }
      else if l == 4 { assert LineFull(x, 1, p); }
      else if l == 5 { assert LineFull(x, 2, p); }
      else if l == 6 { assert LineFull(x, 7, p); }
      else { assert LineFull(x, 6, p); }
    }
  }

  /** So does the horizontal reflection. */
  lemma ReflectionCarriesLines(x: Cells, p: int)
    ensures Wins(Transform(4, x), p) ==> Wins(x, p)
  {
    if Wins(Transform(4, x), p) {
      var l :| 0 <= l < 8 && LineFull(Transform(4, x), l, p);
      if l == 0 { assert LineFull(x, 2, p); }
      else if l == 1 { assert LineFull(x, 1, p); }
      else if l == 2 { assert LineFull(x, 0, p); }
      else if l == 3 { assert LineFull(x, 3, p); }
      else if l == 4 { assert LineFull(x, 4, p); }
      else if l == 5 { assert LineFull(x, 5, p); }
      else if l == 6 { assert LineFull(x, 7, p); }
      else { assert LineFull(x, 6, p); }
    }
  }

  /** Every rotation is a power of the quarter turn, so it reads winning lines from
      winning lines. */
  lemma {:induction false} RotationPowerCarriesLines(t: nat, x: Cells, p: int)
    requires t < 4
    ensures Wins(Transform(t, x), p) ==> Wins(x, p)
  {
    if t > 0 {
      // transform t is a quarter turn after transform t - 1
      var y: Cells := Transform(t - 1, x);
      RotationPowerCarriesLines(t - 1, x, p);
      TransformCompose(1, t - 1, x);
      assert Compose(1, t - 1) == t by {
        assert t == 1 || t == 2 || t == 3;
      }
      assert Transform(t, x) == Transform(1, y);
      RotationCarriesLines(y, p);
    } else {
      IdentityIsTransform(x);
    }
  }

  /** Every other transform is the horizontal reflection after a rotation, so every
      transform reads winning lines from winning lines. */
  lemma TransformCarriesLines(t: nat, x: Cells, p: int)
    requires t < 8
    ensures Wins(Transform(t, x), p) ==> Wins(x, p)
  {
    if t < 4 {
      RotationPowerCarriesLines(t, x, p);
    } else {
      // transforms 4, 5, 6, 7 are the reflection after rotations 0, 2, 1, 3
      var j := if t == 4 then 0 else if t == 5 then 2 else if t == 6 then 1 else 3;
      var y: Cells := Transform(j, x);
      RotationPowerCarriesLines(j, x, p);
      TransformCompose(4, j, x);
      assert Transform(t, x) == Transform(4, y);
      ReflectionCarriesLines(y, p);
    }
  }

  /** Winning, fullness and hence `win_condition`'s outcome are the same before and
      after any of the eight transforms. */
  lemma OutcomeInvariant(t: nat, x: Cells)
    requires t < 8
    ensures forall p :: Wins(Transform(t, x), p) <==> Wins(x, p)
    ensures IsFull(Transform(t, x)) <==> IsFull(x)
    ensures Winner(Transform(t, x)) == Winner(x)
    ensures GameOver(Transform(t, x)) <==> GameOver(x)
  {
    var y: Cells := Transform(t, x);
    var u := InverseIndex(t);
    InverseUndoesTransform(t, x);
    assert Transform(u, y) == x;
    forall p ensures Wins(y, p) <==> Wins(x, p) {
      TransformCarriesLines(t, x, p);
      TransformCarriesLines(u, y, p);
    }
    assert Wins(y, 1) == Wins(x, 1) && Wins(y, 2) == Wins(x, 2);
    if IsFull(y) {
      forall k | 0 <= k < 9 ensures x[k] != 0 {
        assert x[k] == y[Src(u, k)];
      }
    }
  }

  /** The transforms only move cells, so they commute with the X/O swap and with
      the conversion to text. */
  lemma SwapCommutes(t: nat, x: Cells)
    requires t < 8
    ensures Transform(t, Swap(x)) == Swap(Transform(t, x))
  {
    assert forall k :: 0 <= k < 9 ==> Transform(t, Swap(x))[k] == Swap(Transform(t, x))[k];
  }

  lemma TextCommutes(t: nat, x: Cells)
    requires t < 8
    ensures Transform(t, Text(x)) == Text(Transform(t, x))
  {
    assert forall k :: 0 <= k < 9 ==> Transform(t, Text(x))[k] == Text(Transform(t, x))[k];
  }

  /** A text board of known symbols stays one under a transform, and reading it
      commutes with the transform. */
  lemma ParseTransform(t: nat, s: seq<char>)
    requires t < 8 && |s| == 9 && ParseSymbols(s).Some?
    ensures ParseSymbols(Transform(t, s)).Some?
    ensures ParseSymbols(Transform(t, s)).value == Transform(t, ParseSymbols(s).value)
  {
    var s' := Transform(t, s);
    var v := ParseSymbols(s).value;
    forall k | 0 <= k < 9 ensures PositionToValue(s'[k]).Some? {
      assert s'[k] == s[Src(t, k)];
    }
    var v' := ParseSymbols(s').value;
    forall k | 0 <= k < 9 ensures v'[k] == Transform(t, v)[k] {
      assert PositionToValue(s'[k]) == Some(v'[k]);
      assert PositionToValue(s[Src(t, k)]) == Some(v[Src(t, k)]);
    }
  }

  /** Reading symbols commutes with the transforms, and a text board has an unknown
      symbol exactly when its transform has one. */
  lemma ParseCommutes(t: nat, s: seq<char>)
    requires t < 8 && |s| == 9
    ensures ParseSymbols(Transform(t, s)).Some? <==> ParseSymbols(s).Some?
    ensures ParseSymbols(s).Some? ==> ParseSymbols(Transform(t, s)).value == Transform(t, ParseSymbols(s).value)
  {
    if ParseSymbols(s).Some? {
      ParseTransform(t, s);
    }
    if ParseSymbols(Transform(t, s)).Some? {
      ParseTransform(InverseIndex(t), Transform(t, s));
      InverseUndoesTransform(t, s);
    }
  }

  /** A transform moves cell `k` to cell `Src(InverseIndex(t), k)`, so it carries a
      one-hot board to the one-hot board of that cell. */
  lemma TransformOneHot(t: nat, k: nat, v: int, x: seq<int>)
    requires t < 8 && k < 9 && |x| == 9
    ensures Transform(t, x)[Src(InverseIndex(t), k)] == x[k]
    ensures Transform(t, OneHot(k, v)) == OneHot(Src(InverseIndex(t), k), v)
  {
    var u := InverseIndex(t);
    var j := Src(u, k);
    SrcInverse(t, k);
    forall i | 0 <= i < 9 ensures Transform(t, OneHot(k, v))[i] == OneHot(j, v)[i] {
      SrcInverse(t, i);
      assert Src(t, i) == k <==> i == j;
    }
  }

  // ---------------------------------------------------------------------------
  // Canonical form

  /** The code of transform `t` of `x`. */
  function OrbitCode(x: Cells, t: nat): nat
    requires t < 8
  {
    NpBoardToCode(Transform(t, x))
  }

  /** The codes of the eight transforms of `x`, in transform order. */
  function OrbitCodes(x: Cells): (r: seq<nat>)
    ensures |r| == 8
  {
    seq(8, t requires 0 <= t < 8 => OrbitCode(x, t))
  }

  /** The first of positions `0 .. n - 1` holding the least key; like Python's
      `min`, it keeps the earliest of equal keys. */
  function FirstMinimal(keys: seq<nat>, n: nat): (t: nat)
    requires 1 <= n <= |keys|
    ensures t < n
    ensures forall i :: 0 <= i < n ==> keys[t] <= keys[i]
    ensures forall i :: 0 <= i < t ==> keys[i] > keys[t]
  {
    if n == 1 then 0
    else
      var t := FirstMinimal(keys, n - 1);
      if keys[n - 1] < keys[t] then n - 1 else t
  }

  /** The index `normalization_transform` picks among all eight transforms. */
  function MinimalTransform(x: Cells): (t: nat)
    ensures t < 8
  {
    var keys := OrbitCodes(x);
    FirstMinimal(keys, |keys|)
  }

  /** The normalised board and its code. */
  function CanonicalForm(x: Cells): Cells
  {
    Transform(MinimalTransform(x), x)
  }

  function CanonicalCode(x: Cells): nat
  {
    NpBoardToCode(CanonicalForm(x))
  }

  /** The code of transform `i` of `Transform(j, x)` is the code of transform
      `Compose(i, j)` of `x`. */
  lemma OrbitCodeShift(x: Cells, j: nat, i: nat)
    requires i < 8 && j < 8
    ensures OrbitCode(Transform(j, x), i) == OrbitCode(x, Compose(i, j))
  {
    TransformCompose(i, j, x);
  }

  /** The canonical code is the least code over the eight transforms, and the
      chosen transform's inverse gives back the original board. */
  lemma CanonicalFormProperties(x: Cells)
    ensures forall i :: 0 <= i < 8 ==> CanonicalCode(x) <= OrbitCode(x, i)
    ensures Transform(InverseIndex(MinimalTransform(x)), CanonicalForm(x)) == x
  {
    var t := MinimalTransform(x);
    var keys := OrbitCodes(x);
    assert CanonicalCode(x) == keys[t];
    forall i | 0 <= i < 8 ensures CanonicalCode(x) <= OrbitCode(x, i) {
      assert keys[i] == OrbitCode(x, i);
    }
    InverseUndoesTransform(t, x);
  }

  /** The least code over the orbit of `Transform(j, x)` is not below that of `x`. */
  lemma CanonicalCodeNotBelow(j: nat, x: Cells)
    requires j < 8
    ensures CanonicalCode(Transform(j, x)) >= CanonicalCode(x)
  {
    var y: Cells := Transform(j, x);
    var a := MinimalTransform(y);
    CanonicalFormProperties(x);
    OrbitCodeShift(x, j, a);
    assert CanonicalCode(y) == OrbitCode(y, a);
  }

  /** Symmetric boards have the same canonical form, hence the same canonical code. */
  lemma CanonicalFormInvariant(j: nat, x: Cells)
    requires j < 8
    ensures CanonicalForm(Transform(j, x)) == CanonicalForm(x)
    ensures CanonicalCode(Transform(j, x)) == CanonicalCode(x)
  {
    var y: Cells := Transform(j, x);
    var u := InverseIndex(j);
    InverseUndoesTransform(j, x);
    InverseUndoesTransform(j, y);
    assert Transform(u, y) == x;
    CanonicalCodeNotBelow(j, x);
    CanonicalCodeNotBelow(u, y);
    CodeInjective(CanonicalForm(y), CanonicalForm(x));
  }
}
