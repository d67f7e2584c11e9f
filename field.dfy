/** The playing field: `height` rows of `width` cells, row 0 at the bottom. Each cell holds a
    block kind and an attribute. Reads outside the field see a wall; pieces are stamped with
    their top-left corner at the anchor, so shape row j lands on field row y - j; full rows
    are removed and the rows above fall; garbage rows are pushed in from the bottom. */
module Playfield {
  import opened Tetromino

  type PieceKind = k: MinoType | k != INVALID witness I

  /** `block_type`: the seven piece kinds (`Block`), then GARBAGE, WALL and EMPTY. */
  datatype BlockType = Block(kind: PieceKind) | GARBAGE | WALL | EMPTY

  datatype Attribute = NORMAL | GUIDE | LOCKED

  datatype Cell = Cell(block: BlockType, attr: Attribute)

  const Blank: Cell := Cell(EMPTY, NORMAL)

  function BlankRow(width: nat): (r: seq<Cell>)
    ensures |r| == width && forall c :: 0 <= c < width ==> r[c] == Blank
  {
    seq(width, _ => Blank)
  }

  function BlankRows(width: nat, n: nat): (r: seq<seq<Cell>>)
    ensures |r| == n && forall k :: 0 <= k < n ==> r[k] == BlankRow(width)
  {
    seq(n, _ => BlankRow(width))
  }

  /** A row whose every cell holds a block, whatever its attribute. */
  predicate Full(row: seq<Cell>) {
    forall c :: 0 <= c < |row| ==> row[c].block != EMPTY
  }

  /** The rows that are not full, in their order. */
  function Unfull(rows: seq<seq<Cell>>): (r: seq<seq<Cell>>)
    ensures |r| <= |rows|
    ensures forall k :: 0 <= k < |r| ==> !Full(r[k])
  {
    if rows == [] then []
    else (if Full(rows[0]) then [] else [rows[0]]) + Unfull(rows[1..])
  }

  lemma {:induction false} UnfullAppend(a: seq<seq<Cell>>, b: seq<seq<Cell>>)
    ensures Unfull(a + b) == Unfull(a) + Unfull(b)
    decreases |a|
  {
    if a == [] {
      assert a + b == b;
    } else {
      assert (a + b)[1..] == a[1..] + b;
      UnfullAppend(a[1..], b);
    }
  }

  lemma {:induction false} UnfullOfUnfull(rows: seq<seq<Cell>>)
    requires forall k :: 0 <= k < |rows| ==> !Full(rows[k])
    ensures Unfull(rows) == rows
    decreases |rows|
  {
    if rows != [] {
      UnfullOfUnfull(rows[1..]);
    }
  }

  /** A full row is always removed, so a clear with a full row shortens the rows. */
  lemma {:induction false} UnfullDropsFull(rows: seq<seq<Cell>>, r: nat)
    requires r < |rows| && Full(rows[r])
    ensures |Unfull(rows)| < |rows|
    decreases |rows|
  {
    if r > 0 {
      UnfullDropsFull(rows[1..], r - 1);
    }
  }

  lemma SplitThree<T>(s: seq<T>, lo: nat, hi: nat)
    requires lo <= hi <= |s|
    ensures s == s[..lo] + s[lo..hi] + s[hi..]
  {
    assert s == s[..hi] + s[hi..];
    assert s[..hi] == s[..lo] + s[lo..hi];
  }

  /** When only the rows in [lo, hi) can be full, at most hi - lo rows are removed. */
  lemma UnfullRemovesAtMost(rows: seq<seq<Cell>>, lo: nat, hi: nat)
    requires lo <= hi <= |rows|
    requires forall k :: 0 <= k < lo ==> !Full(rows[k])
    requires forall k :: hi <= k < |rows| ==> !Full(rows[k])
    ensures |rows| - |Unfull(rows)| <= hi - lo
  {
    var below, middle, above := rows[..lo], rows[lo..hi], rows[hi..];
    SplitThree(rows, lo, hi);
    assert forall k :: 0 <= k < |above| ==> above[k] == rows[hi + k];
    UnfullOfUnfull(below);
    UnfullOfUnfull(above);
    UnfullAppend(below + middle, above);
    UnfullAppend(below, middle);
  }

  /** `_S_tetromino_to_block_type`: the block a piece leaves; none (EMPTY) for INVALID. */
  function BlockOf(t: Mino): (b: BlockType)
    ensures b == EMPTY <==> t.kind == INVALID
    ensures b != EMPTY ==> b == Block(t.kind)
  {
    if t.kind == INVALID then EMPTY else Block(t.kind)
  }

  /** The cell of the field at row r, column c is covered by piece t anchored at (x, y). */
  ghost predicate Covers(t: Mino, x: int, y: int, r: int, c: int)
    requires IsSquare(t.grid, t.size)
  {
    0 <= c - x < t.size && 0 <= y - r < t.size && t.grid[y - r][c - x]
  }

  /** A row `_M_calcuate_attribute` locks: every block is a piece and no cell is a guide. */
  predicate Lockable(row: seq<Cell>) {
    forall c :: 0 <= c < |row| ==> row[c].block.Block? && row[c].attr != GUIDE
  }

  /** The row as `_M_calcuate_attribute` leaves it: all LOCKED if it is lockable, otherwise
      with LOCKED turned back into NORMAL. */
  function Attributed(row: seq<Cell>): (r: seq<Cell>)
    ensures |r| == |row|
    ensures forall c :: 0 <= c < |row| ==> r[c].block == row[c].block
  {
    if Lockable(row) then
      seq(|row|, c requires 0 <= c < |row| => Cell(row[c].block, LOCKED))
    else
      seq(|row|, c requires 0 <= c < |row| =>
        Cell(row[c].block, if row[c].attr == LOCKED then NORMAL else row[c].attr))
  }

  /** Working out the attributes a second time changes nothing. */
  lemma AttributedIdempotent(row: seq<Cell>)
    ensures Attributed(Attributed(row)) == Attributed(row)
  {
    var once := Attributed(row);
    if Lockable(row) {
      assert Lockable(once);
    } else {
      var c :| 0 <= c < |row| && !(row[c].block.Block? && row[c].attr != GUIDE);
      assert !(once[c].block.Block? && once[c].attr != GUIDE);
    }
  }

  /** A garbage row: GARBAGE everywhere except an EMPTY hole. */
  function GarbageRow(width: nat, hole: nat): (r: seq<Cell>)
    requires hole < width
    ensures |r| == width && r[hole] == Blank
    ensures forall c :: 0 <= c < width && c != hole ==> r[c] == Cell(GARBAGE, NORMAL)
  {
    seq(width, c => if c == hole then Blank else Cell(GARBAGE, NORMAL))
  }

  lemma GarbageRowIsNotFull(width: nat, hole: nat)
    requires hole < width
    ensures !Full(GarbageRow(width, hole))
  {
    assert GarbageRow(width, hole)[hole].block == EMPTY;
  }

  /** The field as a value: its size and its rows. What a read of the field sees, and what a
      piece stamped onto it leaves, are stated on this view. */
  /** No cell of the rows holds a block, whatever its attribute. */
  predicate Empty(rows: seq<seq<Cell>>) {
    forall y, c :: 0 <= y < |rows| && 0 <= c < |rows[y]| ==> rows[y][c].block == EMPTY
  }

  datatype Board = Board(width: nat, height: nat, rows: seq<seq<Cell>>)

  ghost predicate Sized(b: Board) {
    |b.rows| == b.height && forall y :: 0 <= y < b.height ==> |b.rows[y]| == b.width
  }

  /** `get_block` on a view: WALL outside the field, EMPTY for a guide cell, else the stored
      block. */
  function BlockAt(b: Board, x: int, y: int): (r: BlockType)
    requires Sized(b)
    ensures !(0 <= x < b.width && 0 <= y < b.height) ==> r == WALL
    ensures 0 <= x < b.width && 0 <= y < b.height ==>
      r == if b.rows[y][x].attr == GUIDE then EMPTY else b.rows[y][x].block
  {
    if 0 <= x < b.width && 0 <= y < b.height then
      if b.rows[y][x].attr == GUIDE then EMPTY else b.rows[y][x].block
    else WALL
  }

  /** The view once piece t, anchored at (x, y), has written v into every cell it covers. */
  ghost function Stamp(b: Board, x: int, y: int, t: Mino, v: Cell): (r: Board)
    requires Sized(b) && IsSquare(t.grid, t.size)
    ensures Sized(r) && r.width == b.width && r.height == b.height
    ensures forall rr, c :: 0 <= rr < b.height && 0 <= c < b.width ==>
      r.rows[rr][c] == if Covers(t, x, y, rr, c) then v else b.rows[rr][c]
  {
    Board(b.width, b.height,
      seq(b.height, rr requires 0 <= rr < b.height =>
        seq(b.width, c requires 0 <= c < b.width =>
          if Covers(t, x, y, rr, c) then v else b.rows[rr][c])))
  }

  class Field {
    const width: nat
    const height: nat
    var rows: seq<seq<Cell>>

    ghost predicate Valid()
      reads this
    {
      |rows| == height && forall y :: 0 <= y < height ==> |rows[y]| == width
    }

    /** `field(width, height)`: every cell (EMPTY, NORMAL). */
    constructor (w: nat, h: nat)
      ensures Valid() && width == w && height == h
      ensures rows == BlankRows(w, h) && IsEmpty()
    {
      width, height := w, h;
      rows := BlankRows(w, h);
    }

    /** No cell holds a block, whatever its attribute. */
    predicate IsEmpty()
      reads this
    {
      Empty(rows)
    }

    /** The field as a value. */
    function View(): (b: Board)
      reads this
      ensures Valid() <==> Sized(b)
    {
      Board(width, height, rows)
    }

    /** `get_block`: what the view reads at (x, y). */
    function GetBlock(x: int, y: int): (b: BlockType)
      reads this
      requires Valid()
      ensures b == BlockAt(View(), x, y)
    {
      BlockAt(View(), x, y)
    }

    /** `clear`: every cell back to (EMPTY, NORMAL). */
    method Clear()
      requires Valid()
      modifies this
      ensures Valid() && rows == BlankRows(width, height) && IsEmpty()
    {
      var y := 0;
      while y < height
        invariant 0 <= y <= height && Valid()
        invariant rows[..y] == BlankRows(width, y)
      {
        rows := rows[y := BlankRow(|rows[y]|)];
        y := y + 1;
      }
      assert rows == rows[..height];
    }

    /** `set_block`: writes one cell when (x, y) is inside the field, and nothing else. */
    method SetBlock(x: nat, y: nat, t: Mino, attr: Attribute)
      requires Valid()
      modifies this
      ensures Valid()
      ensures x < width && y < height ==> rows == old(rows)[y := old(rows)[y][x := Cell(BlockOf(t), attr)]]
      ensures !(x < width && y < height) ==> rows == old(rows)
    {
      if x < width && y < height {
        rows := rows[y := rows[y][x := Cell(BlockOf(t), attr)]];
      }
    }

    /** `remove_row`: row y goes, the rows above move down one, a blank row tops the field. */
    method RemoveRow(y: nat)
      requires Valid()
      modifies this
      ensures Valid()
      ensures y < height ==> rows == old(rows)[..y] + old(rows)[y + 1..] + [BlankRow(width)]
      ensures y >= height ==> rows == old(rows)
    {
      if y < height {
        rows := rows[..y] + rows[y + 1..] + [BlankRow(width)];
      }
    }

    /** `proceed_lines`: removes every full row, rescanning a row after each removal. What
        is left is the rows that were not full, in order, topped by one blank row per row
        removed; no full row remains. (On a field of width 0 every row is full, and the
        source never stops; the model demands a positive width.) */
    method ProceedLines() returns (count: nat)
      requires Valid() && width > 0
      modifies this
      ensures Valid()
      ensures rows == Unfull(old(rows)) + BlankRows(width, count)
      ensures count == height - |Unfull(old(rows))|
      ensures forall y :: 0 <= y < height ==> !Full(rows[y])
    {
      count := 0;
      var y := 0;
      assert !Full(BlankRow(width)) by { assert BlankRow(width)[0] == Blank; }
      UnfullOfUnfull(BlankRows(width, 0));
      while y < height
        invariant 0 <= y <= height && Valid()
        invariant forall k :: 0 <= k < y ==> !Full(rows[k])
        invariant Unfull(rows) == Unfull(old(rows)) + BlankRows(width, count)
        decreases height - y, height - |Unfull(rows[y..])|
      {
        if Full(rows[y]) {
          RemovalStep(rows, y, width);
          RemoveRow(y);
          count := count + 1;
          assert BlankRows(width, count) == BlankRows(width, count - 1) + [BlankRow(width)];
        } else {
          y := y + 1;
        }
      }
      UnfullOfUnfull(rows);
    }

    /** `put_garbage`: nothing when count is 0 or above the height; otherwise `count`
        garbage rows come in at the bottom, with the hole at `hole` when it is a column and
        at `randomHole` otherwise, and the rows pushed above the top are lost. */
    method PutGarbage(count: nat, hole: int, randomHole: nat)
      requires Valid()
      requires 0 < count <= height ==> randomHole < width
      modifies this
      ensures Valid()
      ensures count == 0 || count > height ==> rows == old(rows)
      ensures 0 < count <= height ==>
        var h := if 0 <= hole < width then hole else randomHole;
        (forall k :: 0 <= k < count ==> rows[k] == GarbageRow(width, h)) &&
        (forall k :: count <= k < height ==> rows[k] == old(rows)[k - count])
    {
      if count == 0 || count > height {
        return;
      }
      var h := if 0 <= hole < width then hole else randomHole;
      var added: seq<seq<Cell>> := [];
      var i := 0;
      while i < count
        invariant 0 <= i <= count && |added| == i
        invariant forall k :: 0 <= k < i ==> added[k] == GarbageRow(width, h)
      {
        added := added + [GarbageRow(width, h)];
        i := i + 1;
      }
      rows := (added + rows)[..height];
    }

    /** `put_mino`: every occupied cell of the piece that falls inside the field takes the
        piece's block, marked GUIDE for a guide and NORMAL otherwise; no other cell changes.
        Shape row j, column i lands on field row y - j, column x + i. */
    method PutMino(x: int, y: int, t: Mino, guide: bool)
      requires Valid() && IsSquare(t.grid, t.size)
      modifies this
      ensures Valid()
      ensures forall r, c :: 0 <= r < height && 0 <= c < width ==>
        rows[r][c] == if Covers(t, x, y, r, c) then Cell(BlockOf(t), if guide then GUIDE else NORMAL)
                      else old(rows)[r][c]
      ensures forall r, c :: 0 <= r < height && 0 <= c < width && Covers(t, x, y, r, c) ==>
        GetBlock(c, r) == if guide then EMPTY else BlockOf(t)
      ensures View() == Stamp(old(View()), x, y, t, Cell(BlockOf(t), if guide then GUIDE else NORMAL))
    {
      var v := Cell(BlockOf(t), if guide then GUIDE else NORMAL);
      var i := 0;
      while i < t.size
        invariant 0 <= i <= t.size && Valid()
        invariant Stamped(old(rows), rows, x, y, t, v, i, 0)
      {
        if 0 <= x + i < width {
          PutColumn(x, y, t, v, i, old(rows));
        } else {
          assert Stamped(old(rows), rows, x, y, t, v, i + 1, 0);
        }
        i := i + 1;
      }
      ghost var st := Stamp(old(View()), x, y, t, v);
      forall r | 0 <= r < height
        ensures rows[r] == st.rows[r]
      {
        assert |rows[r]| == |st.rows[r]| == width;
      }
    }

    /** The stamp of `put_mino` done for the columns before i, and for the first j rows of
        column i. */
    ghost predicate Stamped(was: seq<seq<Cell>>, now: seq<seq<Cell>>, x: int, y: int, t: Mino,
                            v: Cell, i: nat, j: nat)
      requires IsSquare(t.grid, t.size)
      reads this
    {
      |was| == |now| == height &&
      (forall r :: 0 <= r < height ==> |was[r]| == |now[r]| == width) &&
      forall r, c :: 0 <= r < height && 0 <= c < width ==>
        now[r][c] == if Covers(t, x, y, r, c) && (c - x < i || (c - x == i && y - r < j)) then v
                     else was[r][c]
    }

    /** One column of `put_mino`. */
    method PutColumn(x: int, y: int, t: Mino, v: Cell, i: nat, ghost was: seq<seq<Cell>>)
      requires Valid() && IsSquare(t.grid, t.size) && i < t.size && 0 <= x + i < width
      requires Stamped(was, rows, x, y, t, v, i, 0)
      modifies this
      ensures Valid() && Stamped(was, rows, x, y, t, v, i + 1, 0)
    {
      var j := 0;
      while j < t.size
        invariant 0 <= j <= t.size && Valid()
        invariant Stamped(was, rows, x, y, t, v, i, j)
      {
        if 0 <= y - j < height && t.grid[j][i] {
          rows := rows[y - j := rows[y - j][x + i := v]];
        }
        j := j + 1;
      }
    }

    /** `_M_calcuate_attribute`: every row as `Attributed` leaves it. */
    method CalculateAttribute()
      requires Valid()
      modifies this
      ensures Valid()
      ensures forall y :: 0 <= y < height ==> rows[y] == Attributed(old(rows)[y])
    {
      var y := 0;
      while y < height
        invariant 0 <= y <= height && Valid()
        invariant forall k :: 0 <= k < y ==> rows[k] == Attributed(old(rows)[k])
        invariant forall k :: y <= k < height ==> rows[k] == old(rows)[k]
      {
        var row := AttributeRow(rows[y]);
        rows := rows[y := row];
        y := y + 1;
      }
    }
  }

  /** Removing a full row at y and topping the field with a blank row adds one blank row to
      the rows that are not full, and leaves one fewer full row from y on. */
  lemma RemovalStep(rows: seq<seq<Cell>>, y: nat, width: nat)
    requires y < |rows| && Full(rows[y]) && width > 0
    ensures var after := rows[..y] + rows[y + 1..] + [BlankRow(width)];
      Unfull(after) == Unfull(rows) + [BlankRow(width)] &&
      |Unfull(after[y..])| == |Unfull(rows[y..])| + 1
  {
    var after := rows[..y] + rows[y + 1..] + [BlankRow(width)];
    assert !Full(BlankRow(width)) by { assert BlankRow(width)[0] == Blank; }
    assert rows == rows[..y] + [rows[y]] + rows[y + 1..];
    UnfullAppend(rows[..y] + [rows[y]], rows[y + 1..]);
    UnfullAppend(rows[..y], [rows[y]]);
    UnfullAppend(rows[..y] + rows[y + 1..], [BlankRow(width)]);
    UnfullAppend(rows[..y], rows[y + 1..]);
    assert Unfull([BlankRow(width)]) == [BlankRow(width)];
    assert Unfull([rows[y]]) == [];
    assert after[y..] == rows[y + 1..] + [BlankRow(width)];
    assert rows[y..] == [rows[y]] + rows[y + 1..];
    UnfullAppend([rows[y]], rows[y + 1..]);
    UnfullAppend(rows[y + 1..], [BlankRow(width)]);
  }

  /** The inner loops of `_M_calcuate_attribute` on one row. */
  method AttributeRow(row: seq<Cell>) returns (r: seq<Cell>)
    ensures r == Attributed(row)
  {
    var lock := true;
    var c := 0;
    while c < |row|
      invariant 0 <= c <= |row|
      invariant lock <==> forall k :: 0 <= k < c ==> row[k].block.Block? && row[k].attr != GUIDE
    {
      if !(row[c].block.Block? && row[c].attr != GUIDE) {
        lock := false;
      }
      c := c + 1;
    }
    r := row;
    c := 0;
    while c < |r|
      invariant 0 <= c <= |r| == |row|
      invariant forall k :: 0 <= k < c ==> r[k] == Attributed(row)[k]
      invariant forall k :: c <= k < |r| ==> r[k] == row[k]
    {
      if lock {
        r := r[c := Cell(r[c].block, LOCKED)];
      } else if r[c].attr == LOCKED {
        r := r[c := Cell(r[c].block, NORMAL)];
      }
      c := c + 1;
    }
  }
}
