/** Tetromino shapes: the 0/1 occupancy grid of a piece, its in-place quarter and half turns,
    the direction counter kept modulo 4, the collision box derived from the grid, and the
    conversion between piece letters and pieces.

    A tetromino is copied by value wherever it goes (the next queue, the hold slot, the spin
    classifier), so it is a datatype here; the operations that rewrite its grid cell by cell
    are methods that return the rewritten value. */
module Tetromino {

  datatype Option<T> = None | Some(value: T)

  /** The seven piece kinds, plus the sentinel for "no piece". */
  datatype MinoType = I | J | L | O | S | T | Z | INVALID

  /** A requested rotation; its numeric value is the number of clockwise quarter turns. */
  datatype Rotation = CW | Half | CCW

  function Steps(r: Rotation): (k: nat)
    ensures 1 <= k <= 3
  {
    match r
    case CW => 1
    case Half => 2
    case CCW => 3
  }

  /** Column bounds (left, right) and row bounds (down = largest row, up = smallest row)
      of the occupied cells. */
  datatype Collision = Collision(left: nat, right: nat, down: nat, up: nat)

  datatype Mino = Mino(kind: MinoType, size: nat, grid: seq<seq<bool>>, direction: nat, box: Collision)

  type Grid = seq<seq<bool>>

  ghost predicate IsSquare(g: Grid, n: nat) {
    |g| == n && forall i :: 0 <= i < n ==> |g[i]| == n
  }

  ghost predicate HasCell(g: Grid, n: nat)
    requires IsSquare(g, n)
  {
    exists i, j :: 0 <= i < n && 0 <= j < n && g[i][j]
  }

  /** `b` is the tight bounding box of the occupied cells of `g`; an empty grid has the
      degenerate box left = up = n, right = down = 0. */
  ghost predicate IsBoxOf(g: Grid, n: nat, b: Collision)
    requires IsSquare(g, n)
  {
    if !HasCell(g, n) then b == Collision(n, 0, 0, n)
    else
      b.left < n && b.right < n && b.up < n && b.down < n &&
      (forall i, j :: 0 <= i < n && 0 <= j < n && g[i][j] ==>
         b.left <= j <= b.right && b.up <= i <= b.down) &&
      (exists i :: 0 <= i < n && g[i][b.left]) &&
      (exists i :: 0 <= i < n && g[i][b.right]) &&
      (exists j :: 0 <= j < n && g[b.up][j]) &&
      (exists j :: 0 <= j < n && g[b.down][j])
  }

  ghost predicate WellFormed(m: Mino) {
    IsSquare(m.grid, m.size) && m.direction < 4 && IsBoxOf(m.grid, m.size, m.box)
  }

  /** A tetromino is one the game can move: a real piece with at least one occupied cell. */
  ghost predicate Playable(m: Mino) {
    WellFormed(m) && m.kind != INVALID && 0 < m.size <= 4 && HasCell(m.grid, m.size)
  }

  lemma BoxUnique(g: Grid, n: nat, b1: Collision, b2: Collision)
    requires IsSquare(g, n) && IsBoxOf(g, n, b1) && IsBoxOf(g, n, b2)
    ensures b1 == b2
  {
    if HasCell(g, n) {
      var i1 :| 0 <= i1 < n && g[i1][b1.left];
      var i2 :| 0 <= i2 < n && g[i2][b2.left];
      var i3 :| 0 <= i3 < n && g[i3][b1.right];
      var i4 :| 0 <= i4 < n && g[i4][b2.right];
      var j1 :| 0 <= j1 < n && g[b1.up][j1];
      var j2 :| 0 <= j2 < n && g[b2.up][j2];
      var j3 :| 0 <= j3 < n && g[b1.down][j3];
      var j4 :| 0 <= j4 < n && g[b2.down][j4];
    }
  }

  // ---------------------------------------------------------------- the seven shapes

  function ShapeGrid(k: MinoType): Grid {
    match k
    case I => [[false, false, false, false], [true, true, true, true],
               [false, false, false, false], [false, false, false, false]]
    case J => [[true, false, false], [true, true, true], [false, false, false]]
    case L => [[false, false, true], [true, true, true], [false, false, false]]
    case O => [[true, true], [true, true]]
    case S => [[false, true, true], [true, true, false], [false, false, false]]
    case T => [[false, true, false], [true, true, true], [false, false, false]]
    case Z => [[true, true, false], [false, true, true], [false, false, false]]
    case INVALID => []
  }

  function ShapeBox(k: MinoType): Collision {
    match k
    case I => Collision(0, 3, 1, 1)
    case O => Collision(0, 1, 1, 0)
    case INVALID => Collision(0, 0, 0, 0)
    case _ => Collision(0, 2, 1, 0)
  }

  lemma ShapeIsWellFormed(k: MinoType)
    ensures IsSquare(ShapeGrid(k), |ShapeGrid(k)|)
    ensures IsBoxOf(ShapeGrid(k), |ShapeGrid(k)|, ShapeBox(k))
    ensures k != INVALID <==> HasCell(ShapeGrid(k), |ShapeGrid(k)|)
  {
    var g := ShapeGrid(k);
    assert IsSquare(g, |g|);
    if k == INVALID {
      assert !HasCell(g, 0);
    } else if k == I {
      assert g[1][0] && g[1][3] && g[1][1];
    } else if k == O {
      assert g[0][0] && g[1][1];
    } else if k == S {
      assert g[1][0] && g[0][2] && g[1][1];
    } else if k == Z {
      assert g[0][0] && g[1][2] && g[1][1];
    } else {
      assert g[1][0] && g[1][2] && g[1][1];
      assert g[0][0] || g[0][1] || g[0][2];
    }
  }

  /** The canonical spawn-orientation piece of kind `k` (the static tetromino constants). */
  function Shape(k: MinoType): (m: Mino)
    ensures m.kind == k && m.direction == 0 && m.size == |ShapeGrid(k)|
  {
    Mino(k, |ShapeGrid(k)|, ShapeGrid(k), 0, ShapeBox(k))
  }

  /** Every canonical piece is well formed, and playable unless it is the invalid one. */
  lemma ShapePlayable(k: MinoType)
    ensures WellFormed(Shape(k))
    ensures k != INVALID <==> Playable(Shape(k))
  {
    ShapeIsWellFormed(k);
  }

  /** The seven real kinds in declaration order. */
  const Kinds: seq<MinoType> := [I, J, L, O, S, T, Z]

  lemma KindsAreTheRealKinds(k: MinoType)
    ensures k in Kinds <==> k != INVALID
  {}

  // ---------------------------------------------------------------- rotations

  /** Clockwise quarter turn: the cell at row i, column j moves to row j, column n-1-i. */
  function RotCW(g: Grid, n: nat): Grid
    requires IsSquare(g, n)
  {
    seq(n, a requires 0 <= a < n => seq(n, b requires 0 <= b < n => g[n - 1 - b][a]))
  }

  /** Counter-clockwise quarter turn: row i, column j moves to row n-1-j, column i. */
  function RotCCW(g: Grid, n: nat): Grid
    requires IsSquare(g, n)
  {
    seq(n, a requires 0 <= a < n => seq(n, b requires 0 <= b < n => g[b][n - 1 - a]))
  }

  /** Half turn: row i, column j moves to row n-1-i, column n-1-j. */
  function Rot180(g: Grid, n: nat): Grid
    requires IsSquare(g, n)
  {
    seq(n, a requires 0 <= a < n => seq(n, b requires 0 <= b < n => g[n - 1 - a][n - 1 - b]))
  }

  lemma RotationsAreSquare(g: Grid, n: nat)
    requires IsSquare(g, n)
    ensures IsSquare(RotCW(g, n), n) && IsSquare(RotCCW(g, n), n) && IsSquare(Rot180(g, n), n)
  {}

  function RotGrid(g: Grid, n: nat, r: Rotation): (h: Grid)
    requires IsSquare(g, n)
    ensures IsSquare(h, n)
  {
    RotationsAreSquare(g, n);
    match r
    case CW => RotCW(g, n)
    case Half => Rot180(g, n)
    case CCW => RotCCW(g, n)
  }

  /** `k` clockwise quarter turns. */
  function CWPow(g: Grid, n: nat, k: nat): (h: Grid)
    requires IsSquare(g, n)
    ensures IsSquare(h, n)
    decreases k
  {
    RotationsAreSquare(g, n);
    if k == 0 then g else CWPow(RotCW(g, n), n, k - 1)
  }

  lemma {:induction false} CCWUndoesCW(g: Grid, n: nat)
    requires IsSquare(g, n)
    ensures RotCCW(RotCW(g, n), n) == g && RotCW(RotCCW(g, n), n) == g
  {
    RotationsAreSquare(g, n);
    var h := RotCCW(RotCW(g, n), n);
    forall a | 0 <= a < n ensures h[a] == g[a] {
      assert forall b :: 0 <= b < n ==> h[a][b] == g[a][b];
    }
    var h' := RotCW(RotCCW(g, n), n);
    forall a | 0 <= a < n ensures h'[a] == g[a] {
      assert forall b :: 0 <= b < n ==> h'[a][b] == g[a][b];
    }
  }

  lemma {:induction false} HalfIsTwoCW(g: Grid, n: nat)
    requires IsSquare(g, n)
    ensures Rot180(g, n) == RotCW(RotCW(g, n), n) == CWPow(g, n, 2)
  {
    RotationsAreSquare(g, n);
    RotationsAreSquare(RotCW(g, n), n);
    var h := RotCW(RotCW(g, n), n);
    forall a | 0 <= a < n ensures h[a] == Rot180(g, n)[a] {
      assert forall b :: 0 <= b < n ==> h[a][b] == Rot180(g, n)[a][b];
    }
  }

  lemma {:induction false} CCWIsThreeCW(g: Grid, n: nat)
    requires IsSquare(g, n)
    ensures RotCCW(g, n) == CWPow(g, n, 3)
  {
    RotationsAreSquare(g, n);
    var c := RotCW(g, n);
    HalfIsTwoCW(c, n);
    var h := Rot180(c, n);
    assert CWPow(g, n, 3) == CWPow(c, n, 2);
    forall a | 0 <= a < n ensures h[a] == RotCCW(g, n)[a] {
      assert forall b :: 0 <= b < n ==> h[a][b] == RotCCW(g, n)[a][b];
    }
  }

  lemma {:induction false} CWPowAdd(g: Grid, n: nat, p: nat, q: nat)
    requires IsSquare(g, n)
    ensures CWPow(CWPow(g, n, p), n, q) == CWPow(g, n, p + q)
    decreases p
  {
    if p > 0 {
      RotationsAreSquare(g, n);
      CWPowAdd(RotCW(g, n), n, p - 1, q);
    }
  }

  /** Four clockwise turns give back the grid exactly. */
  lemma {:induction false} FourCWIsIdentity(g: Grid, n: nat)
    requires IsSquare(g, n)
    ensures CWPow(g, n, 4) == g
  {
    CWPowAdd(g, n, 2, 2);
    HalfIsTwoCW(g, n);
    RotationsAreSquare(g, n);
    HalfIsTwoCW(Rot180(g, n), n);
    var h := Rot180(Rot180(g, n), n);
    forall a | 0 <= a < n ensures h[a] == g[a] {
      assert forall b :: 0 <= b < n ==> h[a][b] == g[a][b];
    }
  }

  lemma {:induction false} CWPowMod(g: Grid, n: nat, k: nat)
    requires IsSquare(g, n)
    ensures CWPow(g, n, k) == CWPow(g, n, k % 4)
    decreases k
  {
    if k >= 4 {
      CWPowAdd(g, n, 4, k - 4);
      FourCWIsIdentity(g, n);
      CWPowMod(g, n, k - 4);
    }
  }

  /** Every requested rotation is that many clockwise quarter turns. */
  lemma RotGridIsCWPow(g: Grid, n: nat, r: Rotation)
    requires IsSquare(g, n)
    ensures RotGrid(g, n, r) == CWPow(g, n, Steps(r))
  {
    RotationsAreSquare(g, n);
    match r
    case CW => assert CWPow(g, n, 1) == CWPow(RotCW(g, n), n, 0);
    case Half => HalfIsTwoCW(g, n);
    case CCW => CCWIsThreeCW(g, n);
  }

  // ---------------------------------------------------------------- cell count

  ghost function CellSet(g: Grid, n: nat): set<(int, int)>
    requires IsSquare(g, n)
  {
    set i, j | 0 <= i < n && 0 <= j < n && g[i][j] :: (i, j)
  }

  /** The number of occupied cells. */
  ghost function CellCount(g: Grid, n: nat): nat
    requires IsSquare(g, n)
  {
    |CellSet(g, n)|
  }

  lemma {:induction false} InjectiveImageSize(s: set<(int, int)>, f: ((int, int)) -> (int, int))
    requires forall p, q :: p in s && q in s && f(p) == f(q) ==> p == q
    ensures |set p | p in s :: f(p)| == |s|
    decreases |s|
  {
    if s != {} {
      var x :| x in s;
      var s' := s - {x};
      InjectiveImageSize(s', f);
      var img' := set p | p in s' :: f(p);
      assert (set p | p in s :: f(p)) == img' + {f(x)};
      assert f(x) !in img';
    }
  }

  /** Each rotation permutes the cells of the square, so it keeps the number of occupied cells. */
  lemma RotationKeepsCellCount(g: Grid, n: nat, r: Rotation)
    requires IsSquare(g, n)
    ensures CellCount(RotGrid(g, n, r), n) == CellCount(g, n)
  {
    match r
    case CW => CWKeepsCellCount(g, n);
    case Half => HalfKeepsCellCount(g, n);
    case CCW => CCWKeepsCellCount(g, n);
  }

  lemma CWKeepsCellCount(g: Grid, n: nat)
    requires IsSquare(g, n)
    ensures CellCount(RotCW(g, n), n) == CellCount(g, n)
  {
    RotationsAreSquare(g, n);
    var h := RotCW(g, n);
    var f := (p: (int, int)) => (p.1, n - 1 - p.0);
    var s := CellSet(g, n);
    InjectiveImageSize(s, f);
    var img := set p | p in s :: f(p);
    forall q | q in CellSet(h, n) ensures q in img {
      var p := (n - 1 - q.1, q.0);
      assert p in s && f(p) == q;
    }
    assert CellSet(h, n) == img;
  }

  lemma HalfKeepsCellCount(g: Grid, n: nat)
    requires IsSquare(g, n)
    ensures CellCount(Rot180(g, n), n) == CellCount(g, n)
  {
    RotationsAreSquare(g, n);
    var h := Rot180(g, n);
    var f := (p: (int, int)) => (n - 1 - p.0, n - 1 - p.1);
    var s := CellSet(g, n);
    InjectiveImageSize(s, f);
    var img := set p | p in s :: f(p);
    forall q | q in CellSet(h, n) ensures q in img {
      var p := (n - 1 - q.0, n - 1 - q.1);
      assert p in s && f(p) == q;
    }
    assert CellSet(h, n) == img;
  }

  lemma CCWKeepsCellCount(g: Grid, n: nat)
    requires IsSquare(g, n)
    ensures CellCount(RotCCW(g, n), n) == CellCount(g, n)
  {
    RotationsAreSquare(g, n);
    var h := RotCCW(g, n);
    var f := (p: (int, int)) => (n - 1 - p.1, p.0);
    var s := CellSet(g, n);
    InjectiveImageSize(s, f);
    var img := set p | p in s :: f(p);
    forall q | q in CellSet(h, n) ensures q in img {
      var p := (q.1, n - 1 - q.0);
      assert p in s && f(p) == q;
    }
    assert CellSet(h, n) == img;
  }

  lemma RotationKeepsHasCell(g: Grid, n: nat, r: Rotation)
    requires IsSquare(g, n)
    ensures HasCell(RotGrid(g, n, r), n) <==> HasCell(g, n)
  {
    var h := RotGrid(g, n, r);
    RotationKeepsCellCount(g, n, r);
    if HasCell(g, n) {
      var i, j :| 0 <= i < n && 0 <= j < n && g[i][j];
      assert (i, j) in CellSet(g, n);
    } else {
      assert CellSet(g, n) == {};
    }
    if HasCell(h, n) {
      var i, j :| 0 <= i < n && 0 <= j < n && h[i][j];
      assert (i, j) in CellSet(h, n);
    } else {
      assert CellSet(h, n) == {};
    }
  }

  // ---------------------------------------------------------------- the in-place methods

  function Rows(a: array2<bool>): Grid
    reads a
  {
    seq(a.Length0, i requires 0 <= i < a.Length0 reads a =>
      seq(a.Length1, j requires 0 <= j < a.Length1 reads a => a[i, j]))
  }

  /** `_M_rotate_cw`: every cell of a copy of the grid is written to its clockwise place. */
  method RotateCWCells(tmp: Grid, n: nat) returns (r: Grid)
    requires IsSquare(tmp, n)
    ensures IsSquare(r, n)
    ensures forall i, j :: 0 <= i < n && 0 <= j < n ==> r[j][n - 1 - i] == tmp[i][j]
    ensures r == RotCW(tmp, n)
  {
    var mino := new bool[n, n]((p, q) requires 0 <= p < n && 0 <= q < n => tmp[p][q]);
    var i := 0;
    while i < n
      invariant 0 <= i <= n
      invariant forall p, q :: 0 <= p < i && 0 <= q < n ==> mino[q, n - 1 - p] == tmp[p][q]
    {
      var j := 0;
      while j < n
        invariant 0 <= j <= n
        invariant forall p, q :: 0 <= p < i && 0 <= q < n ==> mino[q, n - 1 - p] == tmp[p][q]
        invariant forall q :: 0 <= q < j ==> mino[q, n - 1 - i] == tmp[i][q]
      {
        mino[j, n - 1 - i] := tmp[i][j];
        j := j + 1;
      }
      i := i + 1;
    }
    r := Rows(mino);
    forall a, b | 0 <= a < n && 0 <= b < n ensures r[a][b] == tmp[n - 1 - b][a] {
      assert mino[a, n - 1 - (n - 1 - b)] == tmp[n - 1 - b][a];
    }
    assert forall a :: 0 <= a < n ==> r[a] == RotCW(tmp, n)[a];
  }

  /** `_M_rotate_ccw`: every cell of a copy of the grid is written to its counter-clockwise place. */
  method RotateCCWCells(tmp: Grid, n: nat) returns (r: Grid)
    requires IsSquare(tmp, n)
    ensures IsSquare(r, n)
    ensures forall i, j :: 0 <= i < n && 0 <= j < n ==> r[n - 1 - j][i] == tmp[i][j]
    ensures r == RotCCW(tmp, n)
  {
    var mino := new bool[n, n]((p, q) requires 0 <= p < n && 0 <= q < n => tmp[p][q]);
    var i := 0;
    while i < n
      invariant 0 <= i <= n
      invariant forall p, q :: 0 <= p < i && 0 <= q < n ==> mino[n - 1 - q, p] == tmp[p][q]
    {
      var j := 0;
      while j < n
        invariant 0 <= j <= n
        invariant forall p, q :: 0 <= p < i && 0 <= q < n ==> mino[n - 1 - q, p] == tmp[p][q]
        invariant forall q :: 0 <= q < j ==> mino[n - 1 - q, i] == tmp[i][q]
      {
        mino[n - 1 - j, i] := tmp[i][j];
        j := j + 1;
      }
      i := i + 1;
    }
    r := Rows(mino);
    forall a, b | 0 <= a < n && 0 <= b < n ensures r[a][b] == tmp[b][n - 1 - a] {
      assert mino[n - 1 - (n - 1 - a), b] == tmp[b][n - 1 - a];
    }
    assert forall a :: 0 <= a < n ==> r[a] == RotCCW(tmp, n)[a];
  }

  /** `_M_rotate_180`: every cell of a copy of the grid is written to its point reflection. */
  method Rotate180Cells(tmp: Grid, n: nat) returns (r: Grid)
    requires IsSquare(tmp, n)
    ensures IsSquare(r, n)
    ensures forall i, j :: 0 <= i < n && 0 <= j < n ==> r[n - 1 - i][n - 1 - j] == tmp[i][j]
    ensures r == Rot180(tmp, n)
  {
    var mino := new bool[n, n]((p, q) requires 0 <= p < n && 0 <= q < n => tmp[p][q]);
    var i := 0;
    while i < n
      invariant 0 <= i <= n
      invariant forall p, q :: 0 <= p < i && 0 <= q < n ==> mino[n - 1 - p, n - 1 - q] == tmp[p][q]
    {
      var j := 0;
      while j < n
        invariant 0 <= j <= n
        invariant forall p, q :: 0 <= p < i && 0 <= q < n ==> mino[n - 1 - p, n - 1 - q] == tmp[p][q]
        invariant forall q :: 0 <= q < j ==> mino[n - 1 - i, n - 1 - q] == tmp[i][q]
      {
        mino[n - 1 - i, n - 1 - j] := tmp[i][j];
        j := j + 1;
      }
      i := i + 1;
    }
    r := Rows(mino);
    forall a, b | 0 <= a < n && 0 <= b < n ensures r[a][b] == tmp[n - 1 - a][n - 1 - b] {
      assert mino[n - 1 - (n - 1 - a), n - 1 - (n - 1 - b)] == tmp[n - 1 - a][n - 1 - b];
    }
    assert forall a :: 0 <= a < n ==> r[a] == Rot180(tmp, n)[a];
  }

  function Min(a: nat, b: nat): nat { if a <= b then a else b }
  function Max(a: nat, b: nat): nat { if a >= b then a else b }

  /** What the scan of `_M_calculate_collision` knows once it has visited the cells before
      (i, j) in row-major order: whether one was occupied, the bounds of those that were, and
      (as ghost witnesses) an occupied cell on each bound. */
  ghost predicate Scanned(g: Grid, n: nat, i: nat, j: nat, b: Collision, found: bool,
                          li: nat, ri: nat, ui: nat, di: nat)
    requires IsSquare(g, n)
  {
    && (found <==> exists p, q :: 0 <= p < n && 0 <= q < n && (p < i || (p == i && q < j)) && g[p][q])
    && (!found ==> b == Collision(n, 0, 0, n))
    && (found ==> b.left < n && b.right < n && b.up < n && b.down < n &&
                  li < n && g[li][b.left] && ri < n && g[ri][b.right] &&
                  ui < n && g[b.up][ui] && di < n && g[b.down][di])
    && (forall p, q :: 0 <= p < n && 0 <= q < n && (p < i || (p == i && q < j)) && g[p][q] ==>
          b.left <= q <= b.right && b.up <= p <= b.down)
  }

  /** One row of the scan. */
  method ScanRow(g: Grid, n: nat, i: nat, b0: Collision, ghost found0: bool,
                 ghost li0: nat, ghost ri0: nat, ghost ui0: nat, ghost di0: nat)
    returns (b: Collision, ghost found: bool, ghost li: nat, ghost ri: nat, ghost ui: nat, ghost di: nat)
    requires IsSquare(g, n) && i < n && Scanned(g, n, i, 0, b0, found0, li0, ri0, ui0, di0)
    ensures Scanned(g, n, i + 1, 0, b, found, li, ri, ui, di)
  {
    b, found, li, ri, ui, di := b0, found0, li0, ri0, ui0, di0;
    var j := 0;
    while j < n
      invariant 0 <= j <= n
      invariant Scanned(g, n, i, j, b, found, li, ri, ui, di)
    {
      b, found, li, ri, ui, di := ScanCell(g, n, i, j, b, found, li, ri, ui, di);
      j := j + 1;
    }
    NextRowScanned(g, n, i, b, found, li, ri, ui, di);
  }

  /** One cell of the scan: an occupied cell widens the bounds that it lies beyond. */
  method ScanCell(g: Grid, n: nat, i: nat, j: nat, b0: Collision, ghost found0: bool,
                  ghost li0: nat, ghost ri0: nat, ghost ui0: nat, ghost di0: nat)
    returns (b: Collision, ghost found: bool, ghost li: nat, ghost ri: nat, ghost ui: nat, ghost di: nat)
    requires IsSquare(g, n) && i < n && j < n && Scanned(g, n, i, j, b0, found0, li0, ri0, ui0, di0)
    ensures Scanned(g, n, i, j + 1, b, found, li, ri, ui, di)
  {
    var left, right, down, up := b0.left, b0.right, b0.down, b0.up;
    found, li, ri, ui, di := found0, li0, ri0, ui0, di0;
    if g[i][j] {
      left := Min(left, j);
      right := Max(right, j);
      down := Max(down, i);
      up := Min(up, i);
      if left == j { li := i; }
      if right == j { ri := i; }
      if down == i { di := j; }
      if up == i { ui := j; }
      found := true;
    }
    b := Collision(left, right, down, up);
  }

  /** The end of a row is the start of the next. */
  lemma NextRowScanned(g: Grid, n: nat, i: nat, b: Collision, found: bool,
                       li: nat, ri: nat, ui: nat, di: nat)
    requires IsSquare(g, n) && Scanned(g, n, i, n, b, found, li, ri, ui, di)
    ensures Scanned(g, n, i + 1, 0, b, found, li, ri, ui, di)
  {
    if found {
      var p, q :| 0 <= p < n && 0 <= q < n && (p < i || (p == i && q < n)) && g[p][q];
      assert p < i + 1;
    }
  }

  /** `_M_calculate_collision`: the bounding box of the occupied cells, or the empty box
      (left = up = size, right = down = 0) when there are none. */
  method CalculateCollision(g: Grid, n: nat) returns (b: Collision)
    requires IsSquare(g, n)
    ensures IsBoxOf(g, n, b)
  {
    b := Collision(n, 0, 0, n);
    ghost var found := false;
    ghost var li: nat, ri: nat, ui: nat, di: nat := 0, 0, 0, 0;
    var i := 0;
    while i < n
      invariant 0 <= i <= n
      invariant Scanned(g, n, i, 0, b, found, li, ri, ui, di)
    {
      b, found, li, ri, ui, di := ScanRow(g, n, i, b, found, li, ri, ui, di);
      i := i + 1;
    }
    if found {
      assert HasCell(g, n);
      assert exists p :: 0 <= p < n && g[p][b.left];
      assert exists p :: 0 <= p < n && g[p][b.right];
      assert exists q :: 0 <= q < n && g[b.up][q];
      assert exists q :: 0 <= q < n && g[b.down][q];
    } else {
      assert !HasCell(g, n);
    }
  }

  /** `r` is the tetromino `m` rotated by `rot`: same kind and size, the grid turned, the
      direction advanced modulo 4 and the collision box recomputed for the new grid. */
  ghost predicate IsRotation(m: Mino, rot: Rotation, r: Mino)
    requires WellFormed(m)
  {
    r.kind == m.kind && r.size == m.size &&
    r.grid == RotGrid(m.grid, m.size, rot) &&
    r.direction == (m.direction + Steps(rot)) % 4 &&
    IsBoxOf(r.grid, r.size, r.box)
  }

  /** A piece turns by a given amount into exactly one piece. */
  lemma RotationUnique(m: Mino, rot: Rotation, r1: Mino, r2: Mino)
    requires WellFormed(m) && WellFormed(r1) && IsRotation(m, rot, r1) && IsRotation(m, rot, r2)
    ensures r1 == r2
  {
    BoxUnique(r1.grid, r1.size, r1.box, r2.box);
  }

  /** Every rotation changes the direction, so the turned piece differs from the old one. */
  lemma RotationTurns(m: Mino, rot: Rotation, r: Mino)
    requires WellFormed(m) && IsRotation(m, rot, r)
    ensures r.direction != m.direction && r != m
  {
  }

  /** `tetromino::rotate`. */
  method Rotate(m: Mino, rot: Rotation) returns (r: Mino)
    requires WellFormed(m)
    ensures WellFormed(r) && IsRotation(m, rot, r)
    ensures Playable(m) ==> Playable(r)
  {
    var g: Grid;
    match rot {
      case CW => g := RotateCWCells(m.grid, m.size);
      case CCW => g := RotateCCWCells(m.grid, m.size);
      case Half => g := Rotate180Cells(m.grid, m.size);
    }
    var d := (m.direction + Steps(rot)) % 4;
    var b := CalculateCollision(g, m.size);
    r := Mino(m.kind, m.size, g, d, b);
    RotationKeepsHasCell(m.grid, m.size, rot);
  }

  function RotationOfSteps(k: nat): Rotation
    requires 1 <= k <= 3
  {
    if k == 1 then CW else if k == 2 then Half else CCW
  }

  /** `tetromino::set_direction`: turn clockwise by (4 + d - direction) mod 4 quarter turns;
      zero turns leaves the piece untouched. */
  method SetDirection(m: Mino, d: nat) returns (r: Mino)
    requires WellFormed(m)
    ensures WellFormed(r) && r.kind == m.kind && r.size == m.size
    ensures r.direction == d % 4
    ensures r.grid == CWPow(m.grid, m.size, (4 + d - m.direction) % 4)
    ensures d % 4 == m.direction ==> r == m
    ensures Playable(m) ==> Playable(r)
  {
    var k := (4 + d - m.direction) % 4;
    if k == 0 {
      r := m;
    } else {
      r := Rotate(m, RotationOfSteps(k));
      RotGridIsCWPow(m.grid, m.size, RotationOfSteps(k));
    }
  }

  /** Turning to any direction and back to the original one restores the grid bit for bit. */
  lemma SetDirectionRoundTrip(g: Grid, n: nat, d0: nat, d: nat)
    requires IsSquare(g, n) && d0 < 4
    ensures CWPow(CWPow(g, n, (4 + d - d0) % 4), n, (4 + d0 - d % 4) % 4) == g
  {
    var k1 := (4 + d - d0) % 4;
    var k2 := (4 + d0 - d % 4) % 4;
    CWPowAdd(g, n, k1, k2);
    assert (k1 + k2) % 4 == 0;
    CWPowMod(g, n, k1 + k2);
  }

  // ---------------------------------------------------------------- letters

  function ToUpper(c: char): char {
    if 'a' <= c <= 'z' then (c as int - 32) as char else c
  }

  /** `operator char`. */
  function ToChar(m: Mino): (c: char)
    ensures c in "IJLOSTZ?"
    ensures c == '?' <==> m.kind == INVALID
  {
    match m.kind
    case I => 'I'
    case J => 'J'
    case L => 'L'
    case O => 'O'
    case S => 'S'
    case T => 'T'
    case Z => 'Z'
    case INVALID => '?'
  }

  /** The kind a letter names, case-insensitively. */
  function LetterKind(c: char): (r: Option<MinoType>)
    ensures r.Some? <==> ToUpper(c) in "IJLOSTZ"
    ensures r.Some? ==> r.value != INVALID
  {
    match ToUpper(c)
    case 'I' => Some(I)
    case 'J' => Some(J)
    case 'L' => Some(L)
    case 'O' => Some(O)
    case 'S' => Some(S)
    case 'T' => Some(T)
    case 'Z' => Some(Z)
    case _ => None
  }

  /** `tetromino::from_char`: case-insensitive; none for anything but the seven letters. */
  function FromChar(c: char): (r: Option<Mino>)
    ensures r.Some? <==> ToUpper(c) in "IJLOSTZ"
    ensures r.Some? ==> r.value == Shape(r.value.kind) && LetterKind(c) == Some(r.value.kind)
    ensures r.Some? ==> ToChar(r.value) == ToUpper(c) && r.value.direction == 0
  {
    match LetterKind(c)
    case None => None
    case Some(k) => Some(Shape(k))
  }

  lemma FromCharOfToChar(k: MinoType)
    requires k != INVALID
    ensures FromChar(ToChar(Shape(k))) == Some(Shape(k))
  {}

  /** `operator==`: two tetrominoes are equal when they are of the same kind, whatever their
      direction and grid. */
  predicate Same(a: Mino, b: Mino)
    ensures Same(a, b) <==> ToChar(a) == ToChar(b)
  {
    a.kind == b.kind
  }

  // ---------------------------------------------------------------- sequences of pieces

  /** Pieces compare by kind only, so matching looks at their kinds. */
  function KindsOf(pieces: seq<Mino>): (r: seq<MinoType>)
    ensures |r| == |pieces| && forall a :: 0 <= a < |pieces| ==> r[a] == pieces[a].kind
  {
    seq(|pieces|, a requires 0 <= a < |pieces| => pieces[a].kind)
  }

  /** The canonical pieces of the given kinds. */
  function Shapes(ks: seq<MinoType>): (r: seq<Mino>)
    ensures |r| == |ks| && forall a :: 0 <= a < |ks| ==> r[a] == Shape(ks[a])
  {
    seq(|ks|, a requires 0 <= a < |ks| => Shape(ks[a]))
  }

  lemma KindsOfShapes(ks: seq<MinoType>)
    ensures KindsOf(Shapes(ks)) == ks
  {
  }

  lemma KindsOfAppend(a: seq<Mino>, b: seq<Mino>)
    ensures KindsOf(a + b) == KindsOf(a) + KindsOf(b)
  {
  }

  lemma KindsOfTail(a: seq<Mino>)
    requires |a| > 0
    ensures KindsOf(a) == [a[0].kind] + KindsOf(a[1..])
  {
  }

  // ---------------------------------------------------------------- pieces in play

  /** Every piece a game handles: a square grid with its box, at most 4 wide, and, unless
      it is the INVALID sentinel, at least one occupied cell. */
  ghost predicate Fits(m: Mino) {
    WellFormed(m) && m.size <= 4 && (m.kind != INVALID ==> Playable(m))
  }

  ghost predicate MaybeFits(o: Option<Mino>) {
    o.Some? ==> Fits(o.value)
  }

  ghost predicate AllFit(ms: seq<Mino>) {
    forall i :: 0 <= i < |ms| ==> Fits(ms[i])
  }

  lemma ShapeFits(k: MinoType)
    ensures Fits(Shape(k))
  {
    ShapePlayable(k);
  }

  lemma ShapesFit(ks: seq<MinoType>)
    ensures AllFit(Shapes(ks))
  {
    forall a | 0 <= a < |ks|
      ensures Fits(Shapes(ks)[a])
    {
      ShapeFits(ks[a]);
    }
  }
}
