/** What a line clear is worth: the kind of clear, the spin that made it, the combo and
    back-to-back counters, the perfect-clear flag, its display text, and the integer part of
    the attack table (no back-to-back chain, no combo). */
module AttackTable {

  /** Lines cleared at once, less one: SINGLE = 0 ... QUAD = 3. */
  datatype AttackType = SINGLE | DOUBLE | TRIPLE | QUAD

  datatype SpinType = NONE | MINI | SPIN

  datatype AttackInfo = AttackInfo(clear: AttackType, combo: int, btb: int, spin: SpinType, pc: bool)

  function ClearIndex(t: AttackType): (r: nat)
    ensures r < 4
  {
    match t
    case SINGLE => 0
    case DOUBLE => 1
    case TRIPLE => 2
    case QUAD => 3
  }

  function SpinIndex(s: SpinType): (r: nat)
    ensures r < 3
  {
    match s
    case NONE => 0
    case MINI => 1
    case SPIN => 2
  }

  /** The attack type with the given underlying value; `static_cast<attack_type>(n)`. */
  function ClearOfIndex(n: nat): (t: AttackType)
    requires n < 4
    ensures ClearIndex(t) == n
  {
    if n == 0 then SINGLE else if n == 1 then DOUBLE else if n == 2 then TRIPLE else QUAD
  }

  // ---------------------------------------------------------------- the display text

  function ClearName(t: AttackType): string {
    match t
    case SINGLE => "SINGLE"
    case DOUBLE => "DOUBLE"
    case TRIPLE => "TRIPLE"
    case QUAD => "QUAD"
  }

  function SpinPrefix(s: SpinType, mino: char): string {
    match s
    case NONE => ""
    case MINI => "MINI " + [mino] + "-SPIN "
    case SPIN => [mino] + "-SPIN "
  }

  /** `attack_info::to_string`: the spin part (nothing, "c-SPIN " or "MINI c-SPIN "), then
      the name of the clear, then "!!" for a perfect clear. */
  function ToString(a: AttackInfo, mino: char): (s: string)
  {
    SpinPrefix(a.spin, mino) + ClearName(a.clear) + (if a.pc then "!!" else "")
  }

  /** The text ends in "!!" exactly for a perfect clear. */
  lemma ToStringMarksPerfectClear(a: AttackInfo, mino: char)
    ensures var s := ToString(a, mino); a.pc <==> |s| >= 2 && s[|s| - 2..] == "!!"
  {
    var s := ToString(a, mino);
    var name := ClearName(a.clear);
    var b := SpinPrefix(a.spin, mino) + name;
    assert name[|name| - 1] != '!';
    if a.pc {
      assert s == b + "!!";
      assert s[|s| - 2..] == "!!";
    } else {
      assert s == b;
      assert s[|s| - 1] == name[|name| - 1];
    }
  }

  /** Reads a clear name back. */
  function NameOfText(s: string): Option<AttackType> {
    if s == "SINGLE" then Some(SINGLE)
    else if s == "DOUBLE" then Some(DOUBLE)
    else if s == "TRIPLE" then Some(TRIPLE)
    else if s == "QUAD" then Some(QUAD)
    else None
  }

  datatype Option<T> = None | Some(value: T)

  /** The text without a trailing "!!", and whether there was one. */
  function StripBangs(s: string): (string, bool) {
    if |s| >= 2 && s[|s| - 2..] == "!!" then (s[..|s| - 2], true) else (s, false)
  }

  /** The spin and the clear named by a text with no "!!". */
  function DescribeBody(body: string, mino: char): Option<(SpinType, AttackType)> {
    var mini := "MINI " + [mino] + "-SPIN ";
    var spin := [mino] + "-SPIN ";
    var r :=
      if |body| >= |mini| && body[..|mini|] == mini then (MINI, body[|mini|..])
      else if |body| >= |spin| && body[..|spin|] == spin then (SPIN, body[|spin|..])
      else (NONE, body);
    match NameOfText(r.1)
    case None => None
    case Some(t) => Some((r.0, t))
  }

  /** Reads the text of `ToString` back into the spin, the clear and the perfect-clear flag. */
  function Describe(s: string, mino: char): Option<(SpinType, AttackType, bool)> {
    var (body, pc) := StripBangs(s);
    match DescribeBody(body, mino)
    case None => None
    case Some((sp, t)) => Some((sp, t, pc))
  }

  /** The display text determines the spin, the clear and the perfect-clear flag, whatever
      letter the piece has. */
  lemma DescribeToString(a: AttackInfo, mino: char)
    ensures Describe(ToString(a, mino), mino) == Some((a.spin, a.clear, a.pc))
  {
    StripBangsOfToString(a, mino);
    DescribeBodyOfText(a.spin, a.clear, mino);
  }

  lemma StripBangsOfToString(a: AttackInfo, mino: char)
    ensures StripBangs(ToString(a, mino)) == (SpinPrefix(a.spin, mino) + ClearName(a.clear), a.pc)
  {
    var s := ToString(a, mino);
    var body := SpinPrefix(a.spin, mino) + ClearName(a.clear);
    ToStringMarksPerfectClear(a, mino);
    if a.pc {
      assert s == body + "!!";
      assert s[..|s| - 2] == body;
    } else {
      assert s == body;
    }
  }

  lemma DescribeBodyOfText(sp: SpinType, t: AttackType, mino: char)
    ensures DescribeBody(SpinPrefix(sp, mino) + ClearName(t), mino) == Some((sp, t))
  {
    var name := ClearName(t);
    var body := SpinPrefix(sp, mino) + name;
    NameOfTextOfName(t);
    var mini := "MINI " + [mino] + "-SPIN ";
    var spin := [mino] + "-SPIN ";
    match sp
    case MINI =>
      assert body[..|mini|] == mini && body[|mini|..] == name;
    case SPIN =>
      assert body[..|spin|] == spin && body[|spin|..] == name;
      assert body[1] == '-' && mini[1] == 'I';
    case NONE =>
      assert body == name && |name| <= 6 < |spin| < |mini|;
  }

  lemma NameOfTextOfName(t: AttackType)
    ensures NameOfText(ClearName(t)) == Some(t)
  {
  }

  // ---------------------------------------------------------------- the attack table

  /** `tetrio::__table`, indexed by [spin][clear]. */
  const BaseTable: seq<seq<nat>> := [[0, 1, 2, 4], [0, 1, 3, 4], [2, 4, 6, 10]]

  function BaseValue(s: SpinType, t: AttackType): nat {
    BaseTable[SpinIndex(s)][ClearIndex(t)]
  }

  /** `tetrio::get` when there is no back-to-back chain and no combo: the table value, whose
      floor is itself, plus 10 for a perfect clear. */
  function Get(a: AttackInfo): (r: nat)
    requires a.btb <= 0 && a.combo == 0
    ensures a.pc ==> 10 <= r <= 20
    ensures !a.pc ==> r <= 10
  {
    BaseValue(a.spin, a.clear) + (if a.pc then 10 else 0)
  }

  /** A bigger clear is never worth less, and a better spin is never worth less. */
  lemma BaseValueMonotone(s: SpinType, s': SpinType, t: AttackType, t': AttackType)
    requires SpinIndex(s) <= SpinIndex(s') && ClearIndex(t) <= ClearIndex(t')
    ensures BaseValue(s, t) <= BaseValue(s', t')
  {
  }

  /** Without a perfect clear the attack is the table value for the spin and the clear; a
      perfect clear adds exactly 10 to it. */
  lemma PerfectClearBonus(a: AttackInfo)
    requires a.btb <= 0 && a.combo == 0
    ensures Get(a.(pc := false)) == BaseValue(a.spin, a.clear)
    ensures Get(a.(pc := true)) == Get(a.(pc := false)) + 10
  {
  }

  /** A plain clear sends lines-less-one lines, except a QUAD which sends 4; a mini spin
      sends as much as a plain clear except a TRIPLE, which sends 3; a full spin sends twice
      the lines cleared, plus 2 for a QUAD. */
  lemma PlainAndSpinValues(t: AttackType)
    ensures BaseValue(NONE, t) == if t == QUAD then 4 else ClearIndex(t)
    ensures BaseValue(MINI, t) == if t == TRIPLE then 3 else BaseValue(NONE, t)
    ensures BaseValue(SPIN, t) == 2 * (ClearIndex(t) + 1) + (if t == QUAD then 2 else 0)
  {
  }
}
