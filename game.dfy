/** One game session outside puzzle mode: the piece in play, its position, the next queue fed
    by the bag, the hold slot, and the attack counters. The rules are stated on values (a view
    of the field, a piece, a position); the session object applies them in place. Rows count
    upward from the bottom, and a piece's shape row i, column j sits at field column x + j,
    row y - i. */
module Session {
  import opened Tetromino
  import opened Playfield
  import opened RandomChoice
  import opened Bags
  import KickTable
  import Spin
  import AttackTable

  type Offset = KickTable.Offset

  /** The settings a session reads: the field size, the hold, the preview, the spawn rule,
      soft drop, and the kick and spin rule sets. */
  datatype Config = Config(
    width: nat, height: nat, extraHeight: nat,
    holdEnabled: bool, holdInfinite: bool,
    nextCount: nat,
    baseHeight: nat, extended: bool, extendedHeight: nat,
    infSoftDrop: bool,
    kicks: KickTable.KickData, spin: Spin.SpinRule)


  /** A field between two pieces: well sized, at least one column wide, no full row. */
  ghost predicate Settled(f: Field)
    reads f
  {
    f.Valid() && f.width > 0 && forall r :: 0 <= r < f.height ==> !Full(f.rows[r])
  }



  // ---------------------------------------------------------------- collision

  /** Cell (i, j) of piece t at (x, y) is empty, or lands where the field reads EMPTY. */
  ghost predicate CellFree(f: Board, x: int, y: int, t: Mino, i: nat, j: nat)
    requires Sized(f) && IsSquare(t.grid, t.size) && i < t.size && j < t.size
  {
    !t.grid[i][j] || BlockAt(f, x + j, y - i) == EMPTY
  }

  /** `_M_is_in_collision`: the INVALID piece always collides; any other piece collides when
      one of its occupied cells lands where the field does not read EMPTY, which includes
      every place outside the field. */
  ghost predicate Collides(f: Board, x: int, y: int, t: Mino)
    requires Sized(f) && IsSquare(t.grid, t.size)
  {
    t.kind == INVALID ||
    exists i, j :: 0 <= i < t.size && 0 <= j < t.size && !CellFree(f, x, y, t, i, j)
  }

  /** A position where a real piece does not collide keeps every occupied cell inside the
      field; in particular the anchor row is not below the floor. */
  lemma FreeIsInside(f: Board, x: int, y: int, t: Mino)
    requires Sized(f) && Fits(t) && !Collides(f, x, y, t)
    ensures t.kind != INVALID && 0 <= y
    ensures forall i, j :: 0 <= i < t.size && 0 <= j < t.size && t.grid[i][j] ==>
      0 <= x + j < f.width && 0 <= y - i < f.height
  {
    forall i, j | 0 <= i < t.size && 0 <= j < t.size && t.grid[i][j]
      ensures 0 <= x + j < f.width && 0 <= y - i < f.height
    {
      assert CellFree(f, x, y, t, i, j);
    }
    var i, j :| 0 <= i < t.size && 0 <= j < t.size && t.grid[i][j];
    assert 0 <= y - i;
  }

  /** `_M_is_immobile`: the piece collides one column left, one right, one row up and one row
      down. */
  ghost predicate Immobile(f: Board, x: int, y: int, t: Mino)
    requires Sized(f) && IsSquare(t.grid, t.size)
  {
    Collides(f, x - 1, y, t) && Collides(f, x + 1, y, t) &&
    Collides(f, x, y + 1, t) && Collides(f, x, y - 1, t)
  }

  // ---------------------------------------------------------------- falling

  /** Where a piece falling from row y comes to rest: the lowest row it reaches moving down
      one row at a time through free positions. It stays at y when y - 1 collides. */
  ghost function Fall(f: Board, x: int, y: int, t: Mino): (r: int)
    requires Sized(f) && Fits(t)
    ensures r <= y && Collides(f, x, r - 1, t)
    ensures forall y' :: r <= y' < y ==> !Collides(f, x, y', t)
    decreases y
  {
    if Collides(f, x, y - 1, t) then y
    else
      FreeIsInside(f, x, y - 1, t);
      Fall(f, x, y - 1, t)
  }

  /** When the row below is free, falling from here is falling from there. */
  lemma FallStep(f: Board, x: int, y: int, t: Mino)
    requires Sized(f) && Fits(t) && !Collides(f, x, y - 1, t)
    ensures 0 < y && Fall(f, x, y, t) == Fall(f, x, y - 1, t)
  {
    FreeIsInside(f, x, y - 1, t);
  }

  /** A piece that cannot move in any direction falls no rows, so a spin is still possible
      after its drop. */
  lemma ImmobileDoesNotFall(f: Board, x: int, y: int, t: Mino)
    requires Sized(f) && Fits(t) && Immobile(f, x, y, t)
    ensures Fall(f, x, y, t) == y
  {
  }

  /** Falling is determined by the rows passed through: from any free row on the way down, a
      piece rests where it would have rested from the top. */
  lemma {:induction false} FallFromBetween(f: Board, x: int, y: int, y': int, t: Mino)
    requires Sized(f) && Fits(t) && Fall(f, x, y, t) <= y' <= y
    ensures Fall(f, x, y', t) == Fall(f, x, y, t)
    decreases y - y'
  {
    if y' < y {
      assert !Collides(f, x, y - 1, t);
      FallFromBetween(f, x, y - 1, y', t);
    }
  }

  // ---------------------------------------------------------------- trying offsets

  /** The first offset, from position `from` of the list on, at which the piece does not
      collide, or none when every remaining one collides. */
  ghost function FirstFree(f: Board, x: int, y: int, t: Mino, tries: seq<Offset>, from: nat): (r: Option<nat>)
    requires Sized(f) && IsSquare(t.grid, t.size) && from <= |tries|
    ensures r.Some? ==> from <= r.value < |tries|
    ensures r.Some? ==> !Collides(f, x + tries[r.value].0, y + tries[r.value].1, t)
    ensures r.Some? ==> forall k :: from <= k < r.value ==> Collides(f, x + tries[k].0, y + tries[k].1, t)
    ensures r.None? ==> forall k :: from <= k < |tries| ==> Collides(f, x + tries[k].0, y + tries[k].1, t)
    decreases |tries| - from
  {
    if from == |tries| then None
    else if !Collides(f, x + tries[from].0, y + tries[from].1, t) then Some(from)
    else FirstFree(f, x, y, t, tries, from + 1)
  }

  /** The offsets `rotate` tries for turning m into t: none at all, then the kick list for
      this piece and this pair of directions, in order. */
  function Tries(kicks: KickTable.KickData, m: Mino, t: Mino): seq<Offset>
    requires KickTable.Complete(kicks)
  {
    [(0, 0)] + KickTable.Get(kicks, t.kind, m.direction, t.direction)
  }

  // ---------------------------------------------------------------- spawning

  /** The spawn column, `width / 2 - (size + 1) / 2`. The source computes it in unsigned
      32-bit arithmetic and stores it in a signed 32-bit integer, which gives back the same
      negative value when the piece is wider than half the field. */
  function SpawnColumn(width: nat, t: Mino): int {
    width / 2 - (t.size + 1) / 2
  }

  /** A piece spawns centred, leaning left: the space to its right
      exceeds the space to its left by at most two columns. */
  lemma SpawnColumnIsCentred(width: nat, t: Mino)
    ensures var x := SpawnColumn(width, t);
      0 <= (width - (x + t.size)) - x <= 2 && (t.size < width ==> 0 <= x)
  {
  }

  /** The rows above the base row that the extended spawn rule tries: 0, 1, … up to the
      extended height, exclusive. */
  function Lifts(n: nat): (r: seq<Offset>)
    ensures |r| == n && forall i :: 0 <= i < n ==> r[i] == (0, i)
  {
    seq(n, i => (0, i))
  }

  /** The row a piece spawns on, or none when the game is over. It is the base row when the
      piece fits there. Otherwise, under the extended rule, it is the first of the base row
      plus 0, 1, … below the extended height that fits; and the game is over when none fits
      or the rule is off. */
  ghost function SpawnRow(f: Board, c: Config, t: Mino): (r: Option<int>)
    requires Sized(f) && Fits(t)
    ensures r.Some? ==> !Collides(f, SpawnColumn(f.width, t), r.value, t)
    ensures r.Some? ==> (r.value == c.baseHeight ||
      (c.extended && c.baseHeight < r.value < c.baseHeight + c.extendedHeight &&
       forall y :: c.baseHeight <= y < r.value ==> Collides(f, SpawnColumn(f.width, t), y, t)))
    ensures r.None? <==> (Collides(f, SpawnColumn(f.width, t), c.baseHeight, t) &&
      (c.extended ==> forall y :: c.baseHeight <= y < c.baseHeight + c.extendedHeight ==>
         Collides(f, SpawnColumn(f.width, t), y, t)))
  {
    var x := SpawnColumn(f.width, t);
    if !Collides(f, x, c.baseHeight, t) then Some(c.baseHeight as int)
    else if !c.extended then None
    else
      var tries := Lifts(c.extendedHeight);
      match FirstFree(f, x, c.baseHeight, t, tries, 0)
      case None =>
        forall y | c.baseHeight <= y < c.baseHeight + c.extendedHeight
          ensures Collides(f, x, y, t)
        {
          assert tries[y - c.baseHeight] == (0, y - c.baseHeight);
        }
        None
      case Some(i) =>
        forall y | c.baseHeight <= y < c.baseHeight + i
          ensures Collides(f, x, y, t)
        {
          assert tries[y - c.baseHeight] == (0, y - c.baseHeight);
        }
        Some(c.baseHeight + i)
  }

  /** The extended rule only starts looking at the base row, where the piece is known to
      collide, so it lifts a piece by at most extended height - 1 rows; with the default
      extended height of 1 it never lifts one. */
  lemma ExtendedHeightOneNeverLifts(f: Board, c: Config, t: Mino)
    requires Sized(f) && Fits(t) && c.extendedHeight <= 1
    ensures SpawnRow(f, c, t) == Some(c.baseHeight as int) <==> !Collides(f, SpawnColumn(f.width, t), c.baseHeight, t)
    ensures SpawnRow(f, c, t).None? <==> Collides(f, SpawnColumn(f.width, t), c.baseHeight, t)
  {
  }

  /** Where a piece appears (the spawn row, or the base row when there is none), it is free
      exactly when a spawn row exists: the game goes on exactly when the piece fits there. */
  lemma SpawnedIffFree(f: Board, c: Config, t: Mino)
    requires Sized(f) && Fits(t)
    ensures var row := SpawnRow(f, c, t);
      row.Some? <==> !Collides(f, SpawnColumn(f.width, t), if row.Some? then row.value else c.baseHeight, t)
  {
  }

  // ---------------------------------------------------------------- locking

  /** A row the piece does not reach is left as it was by the stamp. */
  lemma StampLeavesRow(f: Board, x: int, y: int, t: Mino, v: Cell, r: int)
    requires Sized(f) && IsSquare(t.grid, t.size) && 0 <= r < f.height
    requires r > y || r <= y - t.size
    ensures Stamp(f, x, y, t, v).rows[r] == f.rows[r]
  {
    var row := Stamp(f, x, y, t, v).rows[r];
    forall c | 0 <= c < f.width
      ensures row[c] == f.rows[r][c]
    {
      assert !Covers(t, x, y, r, c);
    }
  }

  /** A piece stamped onto a field with no full row fills at most as many rows as it is
      tall: every other row is as it was. */
  lemma StampFillsAtMostSize(f: Board, x: int, y: int, t: Mino, v: Cell)
    requires Sized(f) && IsSquare(t.grid, t.size)
    requires forall r :: 0 <= r < f.height ==> !Full(f.rows[r])
    ensures f.height - |Unfull(Stamp(f, x, y, t, v).rows)| <= t.size
  {
    var s := Stamp(f, x, y, t, v).rows;
    var lo := if y - t.size + 1 < 0 then 0 else if y - t.size + 1 > f.height then f.height else y - t.size + 1;
    var hi := if y + 1 < lo then lo else if y + 1 > f.height then f.height else y + 1;
    forall k | 0 <= k < lo || hi <= k < f.height
      ensures !Full(s[k])
    {
      StampLeavesRow(f, x, y, t, v, k);
    }
    UnfullRemovesAtMost(s, lo, hi);
  }

  /** A real piece stamped where it did not collide occupies that place: it collides there
      afterwards. */
  lemma StampedPieceCollides(f: Board, x: int, y: int, t: Mino)
    requires Sized(f) && Fits(t) && !Collides(f, x, y, t)
    ensures Collides(Stamp(f, x, y, t, Cell(BlockOf(t), NORMAL)), x, y, t)
  {
    FreeIsInside(f, x, y, t);
    var i, j :| 0 <= i < t.size && 0 <= j < t.size && t.grid[i][j];
    var g := Stamp(f, x, y, t, Cell(BlockOf(t), NORMAL));
    assert Covers(t, x, y, y - i, x + j);
    assert !CellFree(g, x, y, t, i, j);
  }

  // ---------------------------------------------------------------- the attack counters

  const InitialAttack := AttackTable.AttackInfo(AttackTable.SINGLE, 0, -1, AttackTable.NONE, false)

  /** The counters after a lock that cleared `lines` rows with spin `sp`, `pc` telling
      whether the field is then empty. A clear sets the type to lines - 1, adds one to the
      combo and records the spin and the perfect clear; back-to-back breaks (to -1) on a clear
      that is neither a spin nor a quad, and grows by one otherwise. A lock that clears
      nothing resets the combo, the type, the spin and the perfect clear, and leaves
      back-to-back alone. */
  function Scored(a: AttackTable.AttackInfo, lines: nat, sp: Spin.SpinType, pc: bool): (r: AttackTable.AttackInfo)
    requires lines <= 4
  {
    if lines > 0 then
      var clear := AttackTable.ClearOfIndex(lines - 1);
      AttackTable.AttackInfo(clear, a.combo + 1,
        if sp == AttackTable.NONE && clear != AttackTable.QUAD then -1 else a.btb + 1, sp, pc)
    else AttackTable.AttackInfo(AttackTable.SINGLE, 0, a.btb, AttackTable.NONE, false)
  }

  /** What one lock contributes to the counters. */
  datatype Lock = Lock(lines: nat, spin: Spin.SpinType, pc: bool)

  ghost predicate Legal(h: seq<Lock>) {
    forall i :: 0 <= i < |h| ==> h[i].lines <= 4
  }

  /** The counters after a run of locks from a. */
  function Replay(a: AttackTable.AttackInfo, h: seq<Lock>): AttackTable.AttackInfo
    requires Legal(h)
    decreases |h|
  {
    if h == [] then a
    else
      var d := h[|h| - 1];
      Scored(Replay(a, h[..|h| - 1]), d.lines, d.spin, d.pc)
  }

  /** A clear that keeps back-to-back going: a spin, or four lines. */
  predicate Hard(d: Lock) {
    d.spin != AttackTable.NONE || d.lines == 4
  }

  /** The number of locks at the end of the run that each cleared a line. */
  function Streak(h: seq<Lock>): nat
    decreases |h|
  {
    if h == [] || h[|h| - 1].lines == 0 then 0 else Streak(h[..|h| - 1]) + 1
  }

  /** The number of hard clears at the end of the run, skipping locks that cleared nothing. */
  function Chain(h: seq<Lock>): nat
    decreases |h|
  {
    if h == [] then 0
    else
      var d := h[|h| - 1];
      if d.lines == 0 then Chain(h[..|h| - 1])
      else if Hard(d) then Chain(h[..|h| - 1]) + 1
      else 0
  }

  /** From the initial counters, the combo is the number of consecutive clearing locks at
      the end, and back-to-back is one less than the number of consecutive hard clears,
      where locks that clear nothing neither count nor break the chain. */
  lemma {:induction false} ReplayCounts(h: seq<Lock>)
    requires Legal(h)
    ensures Replay(InitialAttack, h).combo == Streak(h)
    ensures Replay(InitialAttack, h).btb == Chain(h) - 1
    decreases |h|
  {
    if h != [] {
      var init := h[..|h| - 1];
      assert Legal(init) by {
        forall i | 0 <= i < |init| ensures init[i].lines <= 4 { assert init[i] == h[i]; }
      }
      ReplayCounts(init);
      var d := h[|h| - 1];
      if d.lines > 0 {
        var clear := AttackTable.ClearOfIndex(d.lines - 1);
        assert clear == AttackTable.QUAD <==> d.lines == 4 by {
          assert AttackTable.ClearIndex(clear) == d.lines - 1;
        }
      }
    }
  }

  // ---------------------------------------------------------------- a lock in full

  /** What a lock leaves behind: the row the piece came to rest on, whether the lock counts
      as a spin, the rows after clearing and the counters. */
  datatype Landing = Landing(y: int, spun: bool, rows: seq<seq<Cell>>, attack: AttackTable.AttackInfo)

  /** `drop` on a field with no full row, for piece t at (x, y) whose last move was a spin
      when `spin`, with kick index ki and counters a: the piece falls as far as it can, and a
      fall of at least one row ends the spin; it is stamped; a spin is judged on the stamped
      field (immobility read before stamping); the full rows are removed and blank rows come
      in at the top; the counters take the clear, the spin and whether the field is empty. */
  ghost function Landed(rule: Spin.SpinRule, f: Board, t: Mino, x: int, y: int, spin: bool,
                        ki: nat, a: AttackTable.AttackInfo): (l: Landing)
    requires Sized(f) && Fits(t)
    requires forall r :: 0 <= r < f.height ==> !Full(f.rows[r])
    ensures l.y <= y && (l.spun ==> spin && l.y == y)
    ensures |l.rows| == f.height
  {
    var rest := Fall(f, x, y, t);
    var placed := Stamp(f, x, rest, t, Cell(BlockOf(t), NORMAL));
    var lines := f.height - |Unfull(placed.rows)|;
    StampFillsAtMostSize(f, x, rest, t, Cell(BlockOf(t), NORMAL));
    var spun := spin && rest == y;
    var sp := if spun then Spin.Classify(rule, Spin.SpinInfo(t, x, rest, ki, Immobile(f, x, rest, t)), placed)
              else AttackTable.NONE;
    var rows := Unfull(placed.rows) + BlankRows(f.width, lines);
    Landing(rest, spun, rows, Scored(a, lines, sp, Empty(rows)))
  }

  /** The counters register a clear exactly when the stamped piece completes a row: then the
      combo grows by one; otherwise the stamped field is kept as it is, the combo drops to 0
      and back-to-back is left alone. */
  lemma LandedCountsFullRows(rule: Spin.SpinRule, f: Board, t: Mino, x: int, y: int, spin: bool,
                             ki: nat, a: AttackTable.AttackInfo)
    requires Sized(f) && Fits(t)
    requires forall r :: 0 <= r < f.height ==> !Full(f.rows[r])
    ensures var l := Landed(rule, f, t, x, y, spin, ki, a);
      var placed := Stamp(f, x, l.y, t, Cell(BlockOf(t), NORMAL));
      && ((exists r :: 0 <= r < f.height && Full(placed.rows[r])) ==> l.attack.combo == a.combo + 1)
      && ((forall r :: 0 <= r < f.height ==> !Full(placed.rows[r])) ==>
            l.rows == placed.rows && l.attack.combo == 0 && l.attack.btb == a.btb)
  {
    var l := Landed(rule, f, t, x, y, spin, ki, a);
    var placed := Stamp(f, x, l.y, t, Cell(BlockOf(t), NORMAL));
    if exists r :: 0 <= r < f.height && Full(placed.rows[r]) {
      var r :| 0 <= r < f.height && Full(placed.rows[r]);
      UnfullDropsFull(placed.rows, r);
    } else {
      UnfullOfUnfull(placed.rows);
      assert Unfull(placed.rows) + BlankRows(f.width, 0) == placed.rows;
    }
  }

  /** A proof step, not a property of the game: `Landed` unfolded into its intermediate
      values, so that the method that locks a piece can match them one by one. */
  lemma LandedBySteps(rule: Spin.SpinRule, f: Board, t: Mino, x: int, y: int, spin: bool,
                      ki: nat, a: AttackTable.AttackInfo, rest: int, rows: seq<seq<Cell>>, lines: nat,
                      sp: Spin.SpinType, atk: AttackTable.AttackInfo)
    requires Sized(f) && Fits(t)
    requires forall r :: 0 <= r < f.height ==> !Full(f.rows[r])
    requires rest == Fall(f, x, y, t)
    requires var placed := Stamp(f, x, rest, t, Cell(BlockOf(t), NORMAL));
      lines == f.height - |Unfull(placed.rows)| && lines <= 4 &&
      rows == Unfull(placed.rows) + BlankRows(f.width, lines) &&
      sp == (if spin && rest == y then Spin.Classify(rule, Spin.SpinInfo(t, x, rest, ki, Immobile(f, x, rest, t)), placed)
             else AttackTable.NONE) &&
      atk == Scored(a, lines, sp, Empty(rows))
    ensures Landed(rule, f, t, x, y, spin, ki, a) == Landing(rest, spin && rest == y, rows, atk)
  {
  }

  /** A lock leaves no full row behind, so the field stays settled. */
  lemma LandedLeavesNoFullRow(rule: Spin.SpinRule, f: Board, t: Mino, x: int, y: int, spin: bool,
                              ki: nat, a: AttackTable.AttackInfo)
    requires Sized(f) && Fits(t) && f.width > 0
    requires forall r :: 0 <= r < f.height ==> !Full(f.rows[r])
    ensures var l := Landed(rule, f, t, x, y, spin, ki, a);
      forall r :: 0 <= r < |l.rows| ==> !Full(l.rows[r])
  {
    var l := Landed(rule, f, t, x, y, spin, ki, a);
    var placed := Stamp(f, x, l.y, t, Cell(BlockOf(t), NORMAL));
    var u := Unfull(placed.rows);
    assert l.rows == u + BlankRows(f.width, f.height - |u|);
    forall r | 0 <= r < |l.rows|
      ensures !Full(l.rows[r])
    {
      if r >= |u| {
        assert l.rows[r] == BlankRow(f.width);
        assert l.rows[r][0] == Blank;
      }
    }
  }

  // ---------------------------------------------------------------- dealing

  /** The kinds of the next k pieces dealt from a queue of kinds ks, followed by a bag with
      batch b, cursor c and draws r. */
  ghost function Deal(ks: seq<MinoType>, g: Generator, b: seq<MinoType>, c: nat, r: Entropy, k: nat): (d: seq<MinoType>)
    requires Productive(g) && c <= |b|
    ensures |d| == k
  {
    if k <= |ks| then ks[..k] else ks + Upcoming(g, b, c, r, k - |ks|)
  }

  /** Moving the bag's next piece x to the back of the queue leaves the deal unchanged: the
      bag hands out x first, and what it would have handed out after x is what it hands out
      now. */
  lemma PushKeepsDeal(ks: seq<MinoType>, x: MinoType, g: Generator,
                      b: seq<MinoType>, c: nat, r: Entropy, b': seq<MinoType>, c': nat, r': Entropy, k: nat)
    requires Productive(g) && c <= |b| && c' <= |b'|
    requires k > |ks| ==> Upcoming(g, b, c, r, k - |ks|) == [x] + Upcoming(g, b', c', r', k - |ks| - 1)
    ensures Deal(ks, g, b, c, r, k) == Deal(ks + [x], g, b', c', r', k)
  {
    if k <= |ks| {
      PrefixOfAppend(ks, [x], k);
    } else {
      ShiftAcross(ks, x, Upcoming(g, b', c', r', k - |ks| - 1), k);
    }
  }

  lemma PrefixOfAppend<T>(a: seq<T>, b: seq<T>, k: nat)
    requires k <= |a|
    ensures (a + b)[..k] == a[..k]
  {
  }

  lemma ShiftAcross<T>(a: seq<T>, x: T, u: seq<T>, k: nat)
    requires k > |a| && |u| == k - |a| - 1
    ensures a + ([x] + u) == if k <= |a + [x]| then (a + [x])[..k] else (a + [x]) + u
  {
    if k == |a| + 1 {
      assert u == [];
    }
  }

  /** Dealing the front of the queue: it comes first, and the rest of the deal follows. */
  lemma PopFromDeal(x: MinoType, ks: seq<MinoType>, g: Generator, b: seq<MinoType>, c: nat, r: Entropy, k: nat)
    requires Productive(g) && c <= |b|
    ensures Deal([x] + ks, g, b, c, r, k + 1) == [x] + Deal(ks, g, b, c, r, k)
  {
    if k <= |ks| {
      assert ([x] + ks)[..k + 1] == [x] + ks[..k];
    } else {
      var rest := Upcoming(g, b, c, r, k - |ks|);
      assert ([x] + ks) + rest == [x] + (ks + rest);
    }
  }

  // ---------------------------------------------------------------- the session

  /** `set_direction(0)` applied to m: the same piece turned back to direction 0. */
  ghost predicate Upright(m: Mino, h: Mino)
    requires WellFormed(m)
  {
    WellFormed(h) && h.kind == m.kind && h.size == m.size && h.direction == 0 &&
    h.grid == CWPow(m.grid, m.size, (4 - m.direction) % 4)
  }

  /** The session's own variables, apart from the field and the bag. */
  datatype Status = Status(current: Option<Mino>, hold: Option<Mino>, queue: seq<Mino>,
                           holdable: bool, x: int, y: int, attack: AttackTable.AttackInfo,
                           lastSpin: bool, kickIndex: nat, running: bool)

  class Game {
    const config: Config
    const field: Field
    const bag: Bag
    var current: Option<Mino>
    var hold: Option<Mino>
    var queue: seq<Mino>
    var holdable: bool
    var x: int
    var y: int
    var attack: AttackTable.AttackInfo
    var lastSpin: bool
    /** `_M_kick_index`, an unsigned 32-bit integer. */
    var kickIndex: nat
    var running: bool

    ghost function State(): Status
      reads this
    {
      Status(current, hold, queue, holdable, x, y, attack, lastSpin, kickIndex, running)
    }

    /** The field is well sized, at least one column wide and without a full row; every
        piece in play, held, queued or in the bag fits. */
    ghost predicate Valid()
      reads this`current, this`hold, this`queue, this`kickIndex, field, bag
    {
      Settled(field) && bag.Valid() && KickTable.Complete(config.kicks) &&
      MaybeFits(current) && MaybeFits(hold) && AllFit(queue) && kickIndex < 0x1_0000_0000
    }

    /** The kinds of the next k pieces the session deals: its queue, then what the bag
        hands out after it. */
    ghost function Upnext(k: nat): (r: seq<MinoType>)
      reads this`queue, bag
      requires bag.Valid()
      ensures |r| == k
    {
      Deal(KindsOf(queue), bag.generate, KindsOf(bag.queue), bag.cursor, bag.rng, k)
    }

    /** The piece in play is at the spawn column, on the spawn row, or on the base row when
        there is no room. */
    ghost predicate AtSpawn()
      reads this`current, this`x, this`y, field
      requires field.Valid() && current.Some? && Fits(current.value)
    {
      var t := current.value;
      var row := SpawnRow(field.View(), config, t);
      x == SpawnColumn(field.width, t) && y == (if row.Some? then row.value else config.baseHeight)
    }

    /** `game(rand, config, ..., bag_type)`: a field of height + extra height rows, a fresh
        bag, and the state `reset` leaves. */
    constructor (c: Config, rule: BagRule, draws: Entropy)
      requires c.width > 0 && KickTable.Complete(c.kicks)
      ensures Valid() && config == c
      ensures field.width == c.width && field.height == c.height + c.extraHeight && field.IsEmpty()
      ensures (forall rng :: bag.generate(rng) == Batch(rule, rng)) && bag.queue == [] && bag.cursor == 0 && bag.rng == draws
      ensures State() == Status(None, None, [], true, 0, 0, InitialAttack, false, 0, false)
    {
      config := c;
      field := new Field(c.width, c.height + c.extraHeight);
      bag := new Bag(Builder(rule), draws);
      current, hold, queue, holdable := None, None, [], true;
      x, y := 0, 0;
      attack, lastSpin, kickIndex, running := InitialAttack, false, 0, false;
      new;
      forall r | 0 <= r < field.height
        ensures !Full(field.rows[r])
      {
        assert field.rows[r][0] == Blank;
      }
    }

    /** `reset`: a blank field, an empty bag batch, no queue, no piece, no hold, the initial
        counters, and the session stopped. */
    method Reset()
      requires Valid()
      modifies this, field, bag
      ensures Valid()
      ensures field.rows == BlankRows(field.width, field.height)
      ensures bag.queue == [] && bag.cursor == 0 && bag.rng == old(bag.rng)
      ensures State() == old(State()).(current := None, hold := None, queue := [],
        attack := InitialAttack, lastSpin := false, running := false)
    {
      field.Clear();
      bag.Reset();
      queue := [];
      current := None;
      hold := None;
      attack := InitialAttack;
      lastSpin := false;
      running := false;
      forall r | 0 <= r < field.height
        ensures !Full(field.rows[r])
      {
        assert field.rows[r][0] == Blank;
      }
    }

    /** `_M_is_in_collision`, scanning the cells row by row. */
    method IsInCollision(px: int, py: int, t: Mino) returns (b: bool)
      requires field.Valid() && IsSquare(t.grid, t.size)
      ensures b == Collides(field.View(), px, py, t)
    {
      if t.kind == INVALID {
        return true;
      }
      var i := 0;
      while i < t.size
        invariant 0 <= i <= t.size
        invariant forall p, q :: 0 <= p < i && 0 <= q < t.size ==> CellFree(field.View(), px, py, t, p, q)
      {
        ghost var v := field.View();
        var j := 0;
        while j < t.size
          invariant 0 <= j <= t.size
          invariant forall p, q :: 0 <= p < i && 0 <= q < t.size ==> CellFree(field.View(), px, py, t, p, q)
          invariant forall q :: 0 <= q < j ==> CellFree(field.View(), px, py, t, i, q)
        {
          if t.grid[i][j] {
            var block := field.GetBlock(px + j, py - i);
            if block != EMPTY {
              assert !CellFree(field.View(), px, py, t, i, j);
              return true;
            }
          }
          j := j + 1;
        }
        assert forall p, q :: 0 <= p < i + 1 && 0 <= q < t.size ==> CellFree(v, px, py, t, p, q);
        i := i + 1;
      }
      return false;
    }

    /** `_M_is_immobile`. */
    method IsImmobile() returns (b: bool)
      requires Valid() && current.Some?
      ensures b == Immobile(field.View(), x, y, current.value)
    {
      var t := current.value;
      b := IsInCollision(x - 1, y, t);
      if b {
        b := IsInCollision(x + 1, y, t);
        if b {
          b := IsInCollision(x, y + 1, t);
          if b {
            b := IsInCollision(x, y - 1, t);
          }
        }
      }
    }

    /** `left`: one column left when that is free, which ends any spin. */
    method Left() returns (moved: bool)
      requires Valid() && current.Some?
      modifies this
      ensures Valid()
      ensures moved <==> !Collides(field.View(), old(x) - 1, old(y), old(current).value)
      ensures moved ==> State() == old(State()).(x := old(x) - 1, lastSpin := false)
      ensures !moved ==> State() == old(State())
    {
      var c := IsInCollision(x - 1, y, current.value);
      if c {
        return false;
      }
      x := x - 1;
      lastSpin := false;
      return true;
    }

    /** `right`: one column right when that is free, which ends any spin. */
    method Right() returns (moved: bool)
      requires Valid() && current.Some?
      modifies this
      ensures Valid()
      ensures moved <==> !Collides(field.View(), old(x) + 1, old(y), old(current).value)
      ensures moved ==> State() == old(State()).(x := old(x) + 1, lastSpin := false)
      ensures !moved ==> State() == old(State())
    {
      var c := IsInCollision(x + 1, y, current.value);
      if c {
        return false;
      }
      x := x + 1;
      lastSpin := false;
      return true;
    }

    /** The loop of `down` under infinite soft drop and of `drop`: the piece moves down one row
        at a time while the row below is free, and stops on the row `Fall` names. */
    method Bottom(px: int, py: int, t: Mino) returns (row: int)
      requires Valid() && Fits(t)
      ensures row == Fall(field.View(), px, py, t)
    {
      ghost var v := field.View();
      row := py;
      var c := IsInCollision(px, row - 1, t);
      while !c
        invariant c == Collides(v, px, row - 1, t)
        invariant Fall(v, px, row, t) == Fall(v, px, py, t)
        decreases row
      {
        FallStep(v, px, row, t);
        row := row - 1;
        c := IsInCollision(px, row - 1, t);
      }
    }

    /** `down`: when the row below is free, one row down, or all the way down under infinite
        soft drop; either ends any spin. */
    method Down() returns (moved: bool)
      requires Valid() && current.Some?
      modifies this
      ensures Valid()
      ensures moved <==> !Collides(field.View(), old(x), old(y) - 1, old(current).value)
      ensures moved ==> State() == old(State()).(lastSpin := false,
        y := if config.infSoftDrop then Fall(field.View(), old(x), old(y), old(current).value) else old(y) - 1)
      ensures !moved ==> State() == old(State())
    {
      var t := current.value;
      var c := IsInCollision(x, y - 1, t);
      if c {
        return false;
      }
      if config.infSoftDrop {
        y := Bottom(x, y, t);
      } else {
        y := y - 1;
      }
      lastSpin := false;
      return true;
    }

    /** The search of `rotate` and of the extended spawn: the first offset of the list at whose
        place the piece is free, or the length of the list when there is none. */
    method FirstFreeTry(px: int, py: int, t: Mino, tries: seq<Offset>) returns (k: nat)
      requires Valid() && IsSquare(t.grid, t.size)
      ensures k <= |tries|
      ensures var r := FirstFree(field.View(), px, py, t, tries, 0);
        if k < |tries| then r == Some(k) else r.None?
    {
      k := 0;
      while k < |tries|
        invariant k <= |tries|
        invariant FirstFree(field.View(), px, py, t, tries, k) == FirstFree(field.View(), px, py, t, tries, 0)
      {
        var c := IsInCollision(px + tries[k].0, py + tries[k].1, t);
        if !c {
          return;
        }
        k := k + 1;
      }
    }

    /** `rotate`: turns a copy of the piece, then tries it with no offset and with each kick
        of the list in turn, and takes the first that is free: the piece, its position, the
        spin flag and the kick index (the position in the kick list, -1 for no kick, as an
        unsigned 32-bit integer) change. When none is free nothing changes. */
    method Rotate(rot: Rotation)
      requires Valid()
      modifies this
      ensures Valid()
      ensures old(current).None? ==> State() == old(State())
      ensures old(current).Some? && current == old(current) ==>
        State() == old(State()) &&
        forall t :: IsRotation(old(current).value, rot, t) ==>
          FirstFree(field.View(), x, y, t, Tries(config.kicks, old(current).value, t), 0).None?
      ensures old(current).Some? && current != old(current) ==>
        current.Some? && IsRotation(old(current).value, rot, current.value) &&
        var tries := Tries(config.kicks, old(current).value, current.value);
        var k := FirstFree(field.View(), old(x), old(y), current.value, tries, 0);
        k.Some? &&
        State() == old(State()).(current := current, x := old(x) + tries[k.value].0,
          y := old(y) + tries[k.value].1, lastSpin := true, kickIndex := (k.value - 1) % 0x1_0000_0000)
    {
      if current.Some? {
        var t, found, px, py, ki := Kick(current.value, rot);
        if found {
          RotationTurns(old(current).value, rot, t);
          Place(t, px, py, ki);
        }
      }
    }

    /** The search of `rotate`: the turned piece and the first of its tries that is free,
        the kick index being one less than the try's index. */
    method Kick(m: Mino, rot: Rotation) returns (t: Mino, found: bool, px: int, py: int, ki: nat)
      requires Valid() && Fits(m)
      ensures Fits(t) && IsRotation(m, rot, t) && ki < 0x1_0000_0000
      ensures var tries := Tries(config.kicks, m, t);
        var k := FirstFree(field.View(), x, y, t, tries, 0);
        found == k.Some? &&
        (found ==> px == x + tries[k.value].0 && py == y + tries[k.value].1 && ki == (k.value - 1) % 0x1_0000_0000)
      ensures !found ==> forall t' :: IsRotation(m, rot, t') ==>
        FirstFree(field.View(), x, y, t', Tries(config.kicks, m, t'), 0).None?
    {
      t := Tetromino.Rotate(m, rot);
      var tries := [(0, 0)] + KickTable.Get(config.kicks, t.kind, m.direction, t.direction);
      assert tries == Tries(config.kicks, m, t);
      var k := FirstFreeTry(x, y, t, tries);
      found := k < |tries|;
      px, py, ki := 0, 0, 0;
      if found {
        px, py, ki := x + tries[k].0, y + tries[k].1, (k as int - 1) % 0x1_0000_0000;
      } else {
        forall t' | IsRotation(m, rot, t')
          ensures t' == t
        {
          RotationUnique(m, rot, t, t');
        }
      }
    }

    /** The piece in play becomes t at (px, py), reached by the kick of index ki. */
    method Place(t: Mino, px: int, py: int, ki: nat)
      requires Valid() && Fits(t) && ki < 0x1_0000_0000
      modifies this
      ensures Valid()
      ensures State() == old(State()).(current := Some(t), x := px, y := py, lastSpin := true, kickIndex := ki)
    {
      current, x, y, lastSpin, kickIndex := Some(t), px, py, true, ki;
    }

    /** `_M_queue.push_back(_M_bag.next())`: the next piece of the bag joins the queue, so
        what the session is about to deal does not change. */
    method PushFromBag()
      requires Valid()
      modifies this, bag
      ensures Valid()
      ensures |queue| == |old(queue)| + 1 && queue[..|old(queue)|] == old(queue)
      ensures forall k: nat :: Upnext(k) == old(Upnext(k))
      ensures State() == old(State()).(queue := queue)
    {
      ghost var q, g := queue, bag.generate;
      ghost var b0, c0, r0 := KindsOf(bag.queue), bag.cursor, bag.rng;
      assert forall k: nat :: Upnext(k) == Deal(KindsOf(q), g, b0, c0, r0, k);
      var p := bag.Next();
      assert forall j: nat :: Upcoming(g, b0, c0, r0, j + 1) == [p.kind] + bag.Ahead(j);
      queue := queue + [p];
      DealAfterPush(q, p, b0, c0, r0);
      assert queue[..|q|] == q;
    }

    /** With the queue empty, the deal is what the bag hands out. */
    lemma DealFromEmptyQueue()
      requires bag.Valid() && queue == []
      ensures forall k: nat :: Upnext(k) == bag.Ahead(k)
    {
      assert KindsOf(queue) == [];
    }

    /** Once the front piece t of the queue q has been dealt, the deal read from the state
        is what followed t in the deal from q. */
    lemma DealAfterPop(t: Mino, q: seq<Mino>)
      requires bag.Valid() && q == [t] + queue
      ensures forall k: nat ::
        Deal(KindsOf(q), bag.generate, KindsOf(bag.queue), bag.cursor, bag.rng, k + 1) == [t.kind] + Upnext(k)
    {
      KindsOfAppend([t], queue);
      assert KindsOf([t]) == [t.kind];
      forall k: nat
        ensures Deal(KindsOf(q), bag.generate, KindsOf(bag.queue), bag.cursor, bag.rng, k + 1) == [t.kind] + Upnext(k)
      {
        PopFromDeal(t.kind, KindsOf(queue), bag.generate, KindsOf(bag.queue), bag.cursor, bag.rng, k);
      }
    }

    /** Once the bag's next piece p has gone to the back of the queue q, the deal read from
        the state is the deal from the queue q and the bag as it was before. */
    lemma DealAfterPush(q: seq<Mino>, p: Mino, b0: seq<MinoType>, c0: nat, r0: Entropy)
      requires bag.Valid() && queue == q + [p] && c0 <= |b0|
      requires forall j: nat :: Upcoming(bag.generate, b0, c0, r0, j + 1) == [p.kind] + bag.Ahead(j)
      ensures forall k: nat :: Upnext(k) == Deal(KindsOf(q), bag.generate, b0, c0, r0, k)
    {
      KindsOfAppend(q, [p]);
      assert KindsOf([p]) == [p.kind];
      forall k: nat
        ensures Upnext(k) == Deal(KindsOf(q), bag.generate, b0, c0, r0, k)
      {
        if k > |q| {
          assert Upcoming(bag.generate, b0, c0, r0, k - |q|) == [p.kind] + bag.Ahead(k - |q| - 1);
        }
        PushKeepsDeal(KindsOf(q), p.kind, bag.generate, b0, c0, r0, KindsOf(bag.queue), bag.cursor, bag.rng, k);
      }
    }

    /** `_M_get_next` outside puzzle mode: tops the queue up from the bag until it holds more
        than the preview count, then deals its front piece. */
    method GetNext() returns (t: Mino)
      requires Valid()
      modifies this, bag
      ensures Valid() && Fits(t)
      ensures |queue| == (if |old(queue)| > config.nextCount then |old(queue)| else config.nextCount + 1) - 1
      ensures old(queue) != [] ==> t == old(queue)[0] && queue[..|old(queue)| - 1] == old(queue)[1..]
      ensures forall k: nat :: old(Upnext(k + 1)) == [t.kind] + Upnext(k)
      ensures State() == old(State()).(queue := queue)
    {
      TopUp();
      ghost var q := queue;
      assert forall k: nat :: Upnext(k) == Deal(KindsOf(q), bag.generate, KindsOf(bag.queue), bag.cursor, bag.rng, k);
      t := queue[0];
      queue := queue[1..];
      DealAfterPop(t, q);
      if old(queue) != [] {
        assert queue[..|old(queue)| - 1] == q[1..|old(queue)|];
      }
    }

    /** The filling part of `_M_get_next`: pieces move from the bag to the back of the queue
        until it holds more than the preview count; the deal is unchanged. */
    method TopUp()
      requires Valid()
      modifies this, bag
      ensures Valid()
      ensures |queue| == if |old(queue)| > config.nextCount then |old(queue)| else config.nextCount + 1
      ensures queue[..|old(queue)|] == old(queue)
      ensures forall k: nat :: Upnext(k) == old(Upnext(k))
      ensures State() == old(State()).(queue := queue)
    {
      while |queue| <= config.nextCount
        invariant Valid()
        invariant |old(queue)| <= |queue| && queue[..|old(queue)|] == old(queue)
        invariant |queue| <= (if |old(queue)| > config.nextCount then |old(queue)| else config.nextCount + 1)
        invariant forall k: nat :: Upnext(k) == old(Upnext(k))
        invariant State() == old(State()).(queue := queue)
        decreases config.nextCount + 1 - |queue|
      {
        ghost var q := queue;
        PushFromBag();
        assert queue[..|old(queue)|] == q[..|old(queue)|];
      }
    }

    /** `gameover`, without its drawing: the session stops. */
    method GameOver()
      requires Valid()
      modifies this
      ensures Valid() && State() == old(State()).(running := false)
    {
      running := false;
    }

    /** `spawn(new, hold)` outside puzzle mode: a new piece comes from the queue when asked
        for, and the piece in play is placed. */
    method Spawn(isNew: bool, fromHold: bool)
      requires Valid() && (!isNew ==> current.Some?)
      modifies this, bag
      ensures Valid() && current.Some? && AtSpawn()
      ensures isNew ==> forall k: nat :: old(Upnext(k + 1)) == [current.value.kind] + Upnext(k)
      ensures isNew && old(queue) != [] ==> current.value == old(queue)[0]
      ensures isNew ==> |queue| == (if |old(queue)| > config.nextCount then |old(queue)| else config.nextCount + 1) - 1
      ensures !isNew ==> current == old(current) && queue == old(queue) && unchanged(bag)
      ensures running == (old(running) && !Collides(field.View(), x, y, current.value))
      ensures holdable == (old(holdable) || (!fromHold && !Collides(field.View(), x, y, current.value)))
      ensures hold == old(hold) && attack == old(attack) && lastSpin == old(lastSpin) && kickIndex == old(kickIndex)
    {
      if isNew {
        var t := GetNext();
        current := Some(t);
      }
      Appear(fromHold);
    }

    /** The placing part of `spawn`: the piece goes to the spawn column on the base row, or,
        under the extended rule, to the first free row of those it tries above; when none is
        free the game is over. A spawn not from hold that places the piece makes hold
        available again. */
    method Appear(fromHold: bool)
      requires Valid() && current.Some?
      modifies this
      ensures Valid() && current == old(current) && AtSpawn()
      ensures State() == old(State()).(x := x, y := y,
        running := old(running) && !Collides(field.View(), x, y, current.value),
        holdable := old(holdable) || (!fromHold && !Collides(field.View(), x, y, current.value)))
    {
      var placed;
      x, y, placed := SpawnPosition(current.value);
      if !placed {
        GameOver();
      } else if !fromHold {
        holdable := true;
      }
    }

    /** Where `spawn` puts piece t: the spawn column, on the spawn row when there is one
        and on the base row otherwise; `placed` tells whether there is one, which is
        exactly when t is free there. */
    method SpawnPosition(t: Mino) returns (px: int, py: int, placed: bool)
      requires Valid() && Fits(t)
      ensures var row := SpawnRow(field.View(), config, t);
        px == SpawnColumn(field.width, t) && py == (if row.Some? then row.value else config.baseHeight) &&
        placed == row.Some?
      ensures placed == !Collides(field.View(), px, py, t)
    {
      px := SpawnColumn(field.width, t);
      py := config.baseHeight;
      var c := IsInCollision(px, py, t);
      placed := !c;
      if c && config.extended {
        var i := FirstFreeTry(px, py, t, Lifts(config.extendedHeight));
        if i < config.extendedHeight {
          py := py + i;
          placed := true;
        }
      }
      SpawnedIffFree(field.View(), config, t);
    }

    /** The locking part of `drop`, with the outcome `Landed` describes. */
    method Lock()
      requires Valid() && current.Some?
      modifies this`y, this`lastSpin, this`attack, field
      ensures Valid()
      ensures var l := Landed(config.spin, old(field.View()), current.value, x, old(y), old(lastSpin), kickIndex, old(attack));
        y == l.y && lastSpin == l.spun && field.rows == l.rows && attack == l.attack
    {
      ghost var v, t, y0, a0 := field.View(), current.value, y, attack;
      var imm := Land();
      var lines, sp := Settle(imm);
      LandedBySteps(config.spin, v, t, x, y0, old(lastSpin), kickIndex, a0, y, field.rows, lines, sp, attack);
    }

    /** The falling part of `drop`: the piece moves down as far as it can, and a fall of at
        least one row ends any spin. Whether it is then immobile is read before it locks. */
    method Land() returns (imm: bool)
      requires Valid() && current.Some?
      modifies this`y, this`lastSpin
      ensures y == Fall(field.View(), x, old(y), current.value)
      ensures lastSpin == (old(lastSpin) && y == old(y))
      ensures imm == Immobile(field.View(), x, y, current.value)
    {
      var rest := Bottom(x, y, current.value);
      lastSpin := lastSpin && rest == y;
      y := rest;
      imm := IsImmobile();
    }

    /** The stamping part of `drop`: the piece is stamped onto the field; a spin is judged on
        the stamped field when the last move still counts as a spin; and the full rows are
        removed, at most as many as the piece is tall; then the counters are updated. */
    method Settle(imm: bool) returns (lines: nat, sp: Spin.SpinType)
      requires Valid() && current.Some?
      modifies field, this`attack
      ensures Valid()
      ensures var t := current.value;
        var placed := Stamp(old(field.View()), x, y, t, Cell(BlockOf(t), NORMAL));
        lines == field.height - |Unfull(placed.rows)| && lines <= 4 &&
        field.rows == Unfull(placed.rows) + BlankRows(field.width, lines) &&
        sp == (if lastSpin then Spin.Classify(config.spin, Spin.SpinInfo(t, x, y, kickIndex, imm), placed) else AttackTable.NONE) &&
        attack == Scored(old(attack), lines, sp, field.IsEmpty())
    {
      var t := current.value;
      ghost var v := field.View();
      field.PutMino(x, y, t, false);
      sp := AttackTable.NONE;
      if lastSpin {
        sp := Spin.Classify(config.spin, Spin.SpinInfo(t, x, y, kickIndex, imm), field.View());
      }
      StampFillsAtMostSize(v, x, y, t, Cell(BlockOf(t), NORMAL));
      lines := field.ProceedLines();
      Score(lines, sp, field.IsEmpty());
    }

    /** The counter update of `drop` after a lock that cleared `lines` rows with spin `sp`,
        `pc` telling whether the field is then empty. */
    method Score(lines: nat, sp: Spin.SpinType, pc: bool)
      requires lines <= 4
      modifies this`attack
      ensures attack == Scored(old(attack), lines, sp, pc)
    {
      if lines > 0 {
        var clear := AttackTable.ClearOfIndex(lines - 1);
        attack := attack.(pc := pc, clear := clear, combo := attack.combo + 1, spin := sp);
        if sp == AttackTable.NONE && clear != AttackTable.QUAD {
          attack := attack.(btb := -1);
        } else {
          attack := attack.(btb := attack.btb + 1);
        }
      } else {
        attack := attack.(pc := false, clear := AttackTable.SINGLE, combo := 0, spin := AttackTable.NONE);
      }
    }

    /** `drop` outside puzzle mode: the piece locks, then the next piece spawns. Nothing
        happens without a piece in play. */
    method Drop()
      requires Valid()
      modifies this, field, bag
      ensures Valid()
      ensures old(current).None? ==> State() == old(State()) && field.rows == old(field.rows) && unchanged(bag)
      ensures old(current).Some? ==>
        var l := Landed(config.spin, old(field.View()), old(current).value, old(x), old(y), old(lastSpin), old(kickIndex), old(attack));
        field.rows == l.rows && attack == l.attack && lastSpin == l.spun &&
        hold == old(hold) && kickIndex == old(kickIndex) && current.Some? && AtSpawn() &&
        (forall k: nat :: old(Upnext(k + 1)) == [current.value.kind] + Upnext(k)) &&
        running == (old(running) && !Collides(field.View(), x, y, current.value)) &&
        holdable == (old(holdable) || !Collides(field.View(), x, y, current.value))
    {
      if current.Some? {
        ghost var l := Landed(config.spin, field.View(), current.value, x, y, lastSpin, kickIndex, attack);
        Lock();
        ghost var rows, a, spun, r0, h0 := field.rows, attack, lastSpin, running, holdable;
        assert rows == l.rows && a == l.attack && spun == l.spun && r0 == old(running) && h0 == old(holdable);
        Spawn(true, false);
        assert field.rows == rows && attack == a && lastSpin == spun;
        assert running == (r0 && !Collides(field.View(), x, y, current.value));
        assert holdable == (h0 || !Collides(field.View(), x, y, current.value));
      }
    }

    /** `hold`: when hold is enabled and available, the piece in play swaps with the held
        one, which spawns again; with nothing held, the piece in play is held and the next
        one spawns, unless the queue is empty. The held piece is turned back to direction 0,
        and hold stays available only when it is infinite. */
    method Hold()
      requires Valid()
      requires config.holdEnabled && holdable && (hold.Some? || queue != []) ==> current.Some?
      modifies this, bag
      ensures Valid()
      ensures !config.holdEnabled || !old(holdable) || (old(hold).None? && old(queue) == []) ==>
        State() == old(State()) && unchanged(bag)
      ensures config.holdEnabled && old(holdable) && old(hold).Some? ==>
        current == old(hold) && queue == old(queue) && unchanged(bag) &&
        hold.Some? && Upright(old(current).value, hold.value) && AtSpawn() &&
        running == (old(running) && !Collides(field.View(), x, y, current.value))
      ensures config.holdEnabled && old(holdable) && old(hold).None? && old(queue) != [] ==>
        current.Some? && current.value == old(queue)[0] &&
        (forall k: nat :: old(Upnext(k + 1)) == [current.value.kind] + Upnext(k)) &&
        hold.Some? && Upright(old(current).value, hold.value) && AtSpawn() &&
        running == (old(running) && !Collides(field.View(), x, y, current.value))
      ensures config.holdEnabled && old(holdable) && (old(hold).Some? || old(queue) != []) ==>
        holdable == config.holdInfinite && attack == old(attack) && lastSpin == old(lastSpin) &&
        kickIndex == old(kickIndex)
    {
      if config.holdEnabled && holdable && (hold.Some? || |queue| > 0) {
        if hold.Some? {
          SwapHold();
        } else {
          HoldFresh();
        }
      }
    }

    /** `hold` with a piece already held: the two change places and the held one reappears. */
    method SwapHold()
      requires Valid() && holdable && current.Some? && hold.Some?
      modifies this, bag
      ensures Valid()
      ensures current == old(hold) && queue == old(queue) && unchanged(bag) &&
        hold.Some? && Upright(old(current).value, hold.value) && AtSpawn() &&
        running == (old(running) && !Collides(field.View(), x, y, current.value))
      ensures holdable == config.holdInfinite && attack == old(attack) &&
        lastSpin == old(lastSpin) && kickIndex == old(kickIndex)
    {
      current, hold := hold, current;
      Spawn(false, true);
      TurnHold();
    }

    /** `hold` with nothing held: the piece in play is held and the next one is dealt. */
    method HoldFresh()
      requires Valid() && holdable && current.Some? && hold.None? && queue != []
      modifies this, bag
      ensures Valid()
      ensures current.Some? && current.value == old(queue)[0] &&
        (forall k: nat :: old(Upnext(k + 1)) == [current.value.kind] + Upnext(k)) &&
        hold.Some? && Upright(old(current).value, hold.value) && AtSpawn() &&
        running == (old(running) && !Collides(field.View(), x, y, current.value))
      ensures holdable == config.holdInfinite && attack == old(attack) &&
        lastSpin == old(lastSpin) && kickIndex == old(kickIndex)
    {
      hold := current;
      Spawn(true, false);
      TurnHold();
    }

    /** The end of `hold`: the held piece is turned back to direction 0, and hold stays
        available only when it is infinite. */
    method TurnHold()
      requires Valid() && hold.Some?
      modifies this`hold, this`holdable
      ensures Valid() && hold.Some? && Upright(old(hold).value, hold.value)
      ensures holdable == (old(holdable) && config.holdInfinite)
    {
      var h := SetDirection(hold.value, 0);
      hold := Some(h);
      if !config.holdInfinite {
        holdable := false;
      }
    }

    /** `start` outside puzzle mode, without its countdown and drawing: the queue is filled
        from the bag up to the preview count, hold is emptied and made available when it is
        enabled, the first piece spawns, and the session runs, even when that spawn ended
        the game. */
    method Start()
      requires Valid()
      modifies this, bag
      ensures Valid() && current.Some? && AtSpawn() && running && hold.None?
      ensures |queue| == config.nextCount
      ensures forall k: nat :: old(bag.Ahead(k + 1)) == [current.value.kind] + Upnext(k)
      ensures holdable == (config.holdEnabled || !Collides(field.View(), x, y, current.value))
      ensures attack == old(attack) && lastSpin == old(lastSpin) && kickIndex == old(kickIndex)
    {
      Fill();
      Begin();
    }

    /** The part of `start` after the queue is filled: hold is emptied and made available
        as the configuration says, and the first piece comes in from the queue. */
    method Begin()
      requires Valid() && |queue| == config.nextCount
      modifies this, bag
      ensures Valid() && current.Some? && AtSpawn() && running && hold.None?
      ensures |queue| == config.nextCount
      ensures forall k: nat :: old(Upnext(k + 1)) == [current.value.kind] + Upnext(k)
      ensures holdable == (config.holdEnabled || !Collides(field.View(), x, y, current.value))
      ensures attack == old(attack) && lastSpin == old(lastSpin) && kickIndex == old(kickIndex)
    {
      hold := None;
      holdable := config.holdEnabled;
      ghost var h0 := holdable;
      Spawn(true, false);
      assert holdable == (h0 || !Collides(field.View(), x, y, current.value));
      running := true;
    }

    /** The filling part of `start`: the queue is emptied and refilled from the bag up to
        the preview count, so that the pieces to come are those the bag deals. */
    method Fill()
      requires Valid()
      modifies this, bag
      ensures Valid() && |queue| == config.nextCount
      ensures forall k: nat :: Upnext(k) == old(bag.Ahead(k))
      ensures State() == old(State()).(queue := queue)
    {
      queue := [];
      DealFromEmptyQueue();
      while |queue| < config.nextCount
        invariant Valid() && |queue| <= config.nextCount
        invariant forall k: nat :: Upnext(k) == old(bag.Ahead(k))
        invariant State() == old(State()).(queue := queue)
        decreases config.nextCount - |queue|
      {
        PushFromBag();
      }
    }

    /** `garbage(count, hole)`: count garbage rows come in at the bottom, with the hole in
        column `hole` when that is a column and in column `randomHole`, the random pick,
        otherwise; nothing happens when count is 0 or more than the field is high. */
    method Garbage(count: nat, hole: int, randomHole: nat)
      requires Valid()
      requires 0 < count <= field.height ==> randomHole < field.width
      modifies field
      ensures Valid()
      ensures count == 0 || count > field.height ==> field.rows == old(field.rows)
      ensures 0 < count <= field.height ==>
        var h := if 0 <= hole < field.width then hole else randomHole;
        (forall k :: 0 <= k < count ==> field.rows[k] == GarbageRow(field.width, h)) &&
        (forall k :: count <= k < field.height ==> field.rows[k] == old(field.rows)[k - count])
    {
      field.PutGarbage(count, hole, randomHole);
      if 0 < count <= field.height {
        var h := if 0 <= hole < field.width then hole else randomHole;
        GarbageRowIsNotFull(field.width, h);
        forall r | 0 <= r < field.height
          ensures !Full(field.rows[r])
        {
          if r >= count {
            assert field.rows[r] == old(field.rows)[r - count];
          }
        }
      }
    }
  }
}
