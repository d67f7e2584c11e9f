/** Spin classification at lock time. The T piece uses the three-corner rule on the corners
    of its 3x3 box, read from the field and turned to the piece's direction; the "plus" rules
    count an immobile T as a mini, and the "all" rules count any other immobile piece as a
    spin (or a mini). */
module Spin {
  import opened Tetromino
  import opened Playfield
  import AttackTable

  type SpinType = AttackTable.SpinType

  /** `spin_info` without its field, whose view is passed beside it. */
  datatype SpinInfo = SpinInfo(mino: Mino, x: int, y: int, tableIndex: nat, immobile: bool)

  /** A corner counts when the field does not read EMPTY there; outside the field it reads
      WALL, so it counts. */
  function Occupied(f: Board, x: int, y: int): (b: bool)
    requires Sized(f)
    ensures !(0 <= x < f.width && 0 <= y < f.height) ==> b
  {
    BlockAt(f, x, y) != EMPTY
  }

  /** left-top, right-top, right-bottom, left-bottom of the box anchored at (x, y). */
  function RawCorners(f: Board, x: int, y: int): (c: seq<bool>)
    requires Sized(f)
    ensures |c| == 4
  {
    [Occupied(f, x, y), Occupied(f, x + 2, y), Occupied(f, x + 2, y - 2), Occupied(f, x, y - 2)]
  }

  /** `std::rotate` by k to the left; the switch on the direction leaves other values alone. */
  function RotateLeft(s: seq<bool>, k: nat): (r: seq<bool>)
    requires |s| == 4
    ensures |r| == 4
    ensures k < 4 ==> forall i :: 0 <= i < 4 ==> r[i] == s[(i + k) % 4]
    ensures k >= 4 ==> r == s
  {
    if k < 4 then s[k..] + s[..k] else s
  }

  /** `std::count(…, true)`: how many of the flags are set. */
  function Count(s: seq<bool>): (n: nat)
    ensures n <= |s|
  {
    if s == [] then 0 else (if s[0] then 1 else 0) + Count(s[1..])
  }

  /** The count is the number of times `true` occurs among the flags. */
  lemma {:induction false} CountIsOccurrences(s: seq<bool>)
    ensures Count(s) == multiset(s)[true]
  {
    if s != [] {
      CountIsOccurrences(s[1..]);
      assert s == [s[0]] + s[1..];
    }
  }

  lemma CountOfFour(s: seq<bool>)
    requires |s| == 4
    ensures Count(s) == (if s[0] then 1 else 0) + (if s[1] then 1 else 0) + (if s[2] then 1 else 0) + (if s[3] then 1 else 0)
  {
    var t := s[1..];
    var u := t[1..];
    var w := u[1..];
    assert t[0] == s[1] && u[0] == s[2] && w[0] == s[3] && w[1..] == [];
    assert Count(w) == (if s[3] then 1 else 0);
    assert Count(u) == (if s[2] then 1 else 0) + Count(w);
    assert Count(t) == (if s[1] then 1 else 0) + Count(u);
  }

  /** Turning the corners does not change how many are occupied. */
  lemma CountRotateLeft(s: seq<bool>, k: nat)
    requires |s| == 4
    ensures Count(RotateLeft(s, k)) == Count(s)
  {
    CountOfFour(s);
    CountOfFour(RotateLeft(s, k));
  }

  /** The corners as the rule sees them: turned by the piece's direction, so that the first
      two are the corners on the side the T points to. */
  function Corners(info: SpinInfo, f: Board): (c: seq<bool>)
    requires Sized(f)
    ensures |c| == 4
    ensures info.mino.direction < 4 ==>
      forall i :: 0 <= i < 4 ==> c[i] == RawCorners(f, info.x, info.y)[(i + info.mino.direction) % 4]
    ensures Count(c) == Count(RawCorners(f, info.x, info.y))
  {
    CountRotateLeft(RawCorners(f, info.x, info.y), info.mino.direction);
    RotateLeft(RawCorners(f, info.x, info.y), info.mino.direction)
  }

  /** `spin_tables::tspin`: none for any other piece; with three or four corners occupied a
      spin when both front corners are, a mini otherwise; none with fewer. */
  function TSpin(info: SpinInfo, f: Board): (r: SpinType)
    requires Sized(f)
    ensures info.mino.kind != T ==> r == AttackTable.NONE
  {
    if info.mino.kind != T then AttackTable.NONE
    else
      var c := Corners(info, f);
      if Count(c) < 3 then AttackTable.NONE
      else if c[0] && c[1] then AttackTable.SPIN
      else AttackTable.MINI
  }

  /** The three-corner rule stated on the field itself: for a T facing direction d, the
      front corners are raw corners d and d + 1 (mod 4). */
  lemma TSpinByFrontCorners(info: SpinInfo, f: Board)
    requires Sized(f) && info.mino.kind == T && info.mino.direction < 4
    ensures var raw := RawCorners(f, info.x, info.y);
      var d := info.mino.direction;
      var front := raw[d] && raw[(d + 1) % 4];
      (TSpin(info, f) == AttackTable.SPIN <==> Count(raw) >= 3 && front) &&
      (TSpin(info, f) == AttackTable.MINI <==> Count(raw) == 3 && !front) &&
      (TSpin(info, f) == AttackTable.NONE <==> Count(raw) < 3)
  {
    var raw := RawCorners(f, info.x, info.y);
    var d := info.mino.direction;
    CountRotateLeft(raw, d);
    var c := Corners(info, f);
    assert c[0] == raw[d % 4] && c[1] == raw[(d + 1) % 4];
    if Count(raw) == 4 {
      CountOfFour(raw);
      assert raw[d] && raw[(d + 1) % 4];
    }
  }

  /** With all four corners occupied a T is a full spin in every direction. */
  lemma FourCornersIsSpin(info: SpinInfo, f: Board)
    requires Sized(f) && info.mino.kind == T
    requires Count(RawCorners(f, info.x, info.y)) == 4
    ensures TSpin(info, f) == AttackTable.SPIN
  {
    var raw := RawCorners(f, info.x, info.y);
    CountRotateLeft(raw, info.mino.direction);
    CountOfFour(Corners(info, f));
  }

  /** `spin_tables::tspin_plus`: as `tspin`, except that an immobile T with no spin is a
      mini. */
  function TSpinPlus(info: SpinInfo, f: Board): (r: SpinType)
    requires Sized(f)
    ensures info.mino.kind != T ==> r == AttackTable.NONE
    ensures r != TSpin(info, f) ==> TSpin(info, f) == AttackTable.NONE && info.immobile && r == AttackTable.MINI
    ensures info.mino.kind == T && info.immobile && TSpin(info, f) == AttackTable.NONE ==> r == AttackTable.MINI
  {
    if info.mino.kind != T then AttackTable.NONE
    else
      var sp := TSpin(info, f);
      if sp == AttackTable.NONE && info.immobile then AttackTable.MINI else sp
  }

  /** The six rules a game can be set up with. */
  datatype SpinRule = TSpinOnly | TSpinPlusOnly | AllSpin | AllSpinPlus | AllMini | AllMiniPlus

  /** The rule's verdict: T pieces by `tspin` (or `tspin_plus` for the plus rules); other
      pieces nothing under the T-only rules, and, under the "all" rules, a spin (or a mini)
      exactly when immobile. */
  function Classify(rule: SpinRule, info: SpinInfo, f: Board): (r: SpinType)
    requires Sized(f)
    ensures info.mino.kind == T && rule in {TSpinOnly, AllSpin, AllMini} ==> r == TSpin(info, f)
    ensures info.mino.kind == T && rule in {TSpinPlusOnly, AllSpinPlus, AllMiniPlus} ==> r == TSpinPlus(info, f)
    ensures info.mino.kind != T && rule in {TSpinOnly, TSpinPlusOnly} ==> r == AttackTable.NONE
    ensures info.mino.kind != T && rule in {AllSpin, AllSpinPlus} ==>
      (r == AttackTable.SPIN <==> info.immobile) && (r == AttackTable.NONE <==> !info.immobile)
    ensures info.mino.kind != T && rule in {AllMini, AllMiniPlus} ==>
      (r == AttackTable.MINI <==> info.immobile) && (r == AttackTable.NONE <==> !info.immobile)
  {
    match rule
    case TSpinOnly => TSpin(info, f)
    case TSpinPlusOnly => TSpinPlus(info, f)
    case AllSpin =>
      if info.mino.kind == T then TSpin(info, f)
      else if info.immobile then AttackTable.SPIN else AttackTable.NONE
    case AllSpinPlus =>
      if info.mino.kind == T then TSpinPlus(info, f)
      else if info.immobile then AttackTable.SPIN else AttackTable.NONE
    case AllMini =>
      if info.mino.kind == T then TSpin(info, f)
      else if info.immobile then AttackTable.MINI else AttackTable.NONE
    case AllMiniPlus =>
      if info.mino.kind == T then TSpinPlus(info, f)
      else if info.immobile then AttackTable.MINI else AttackTable.NONE
  }

  /** A plus rule and its plain counterpart disagree only on an immobile T the plain one
      calls no spin, which the plus one calls a mini. */
  lemma PlusOnlyAddsImmobileT(rule: SpinRule, plus: SpinRule, info: SpinInfo, f: Board)
    requires Sized(f)
    requires (rule, plus) in {(TSpinOnly, TSpinPlusOnly), (AllSpin, AllSpinPlus), (AllMini, AllMiniPlus)}
    ensures Classify(rule, info, f) != Classify(plus, info, f) <==>
      info.mino.kind == T && info.immobile && Classify(rule, info, f) == AttackTable.NONE
  {
  }
}
