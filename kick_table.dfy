/** Choosing the wall-kick offsets for a rotation. Directions are 0, R = 1, 2 and L = 3; each
    kick table holds one offset list per ordered pair of distinct directions, in the order
      0->R, R->0, R->2, 2->R, 2->L, L->2, L->0, 0->L, 0->2, 2->0, R->L, L->R.
    The offset data itself is not part of this model: a rule set is given as its two tables,
    one for the I piece and one for every other piece. */
module KickTable {
  import opened Tetromino

  /** A kick offset (dx, dy). */
  type Offset = (int, int)

  /** A rule set's data: `_M_table` for most pieces and `_M_table_I` for the I piece. */
  datatype KickData = KickData(normal: seq<seq<Offset>>, forI: seq<seq<Offset>>)

  ghost predicate Complete(d: KickData) {
    |d.normal| >= 12 && |d.forI| >= 12
  }

  /** The slot `general_get` reads for a rotation from `from` to `to`, or none when it
      returns the empty list: a direction above 3, or no change of direction. */
  function KickIndex(from: nat, to: nat): (r: Option<nat>)
    ensures r.Some? ==> r.value < 12
    ensures r.None? <==> from > 3 || to > 3 || from == to
  {
    if from > 3 || to > 3 then None
    else if from == to then None
    else if from - to == 2 || to - from == 2 then
      // a half turn: the index is from / 2 + (from & 1) * 2 + 8
      Some(from / 2 + (from % 2) * 2 + 8)
    else
      var cw := (from + 1) % 4 == to;
      var low := if cw then from else to;
      Some(low * 2 + if cw then 0 else 1)
  }

  /** The documented order of the table slots. */
  const SlotOrder: seq<(nat, nat)> :=
    [(0, 1), (1, 0), (1, 2), (2, 1), (2, 3), (3, 2), (3, 0), (0, 3), (0, 2), (2, 0), (1, 3), (3, 1)]

  /** The index arithmetic agrees with the documented order: slot k is the k-th pair of
      it, in both directions. */
  lemma KickIndexFollowsOrder(from: nat, to: nat, k: nat)
    requires k < 12
    ensures KickIndex(from, to) == Some(k) <==> SlotOrder[k] == (from, to)
  {
  }

  /** Every slot 0..11 is read for exactly one pair of directions. */
  lemma KickIndexIsBijective(from: nat, to: nat, from': nat, to': nat)
    requires KickIndex(from, to).Some? && KickIndex(from, to) == KickIndex(from', to')
    ensures from == from' && to == to'
  {
    var k := KickIndex(from, to).value;
    KickIndexFollowsOrder(from, to, k);
    KickIndexFollowsOrder(from', to', k);
  }

  lemma EverySlotIsUsed(k: nat)
    requires k < 12
    ensures KickIndex(SlotOrder[k].0, SlotOrder[k].1) == Some(k)
  {
    KickIndexFollowsOrder(SlotOrder[k].0, SlotOrder[k].1, k);
  }

  /** `general_get`: the offsets to try when a piece of kind `kind` turns from `from` to
      `to`; an I piece reads the I table, every other piece the common one. */
  function Get(d: KickData, kind: MinoType, from: nat, to: nat): (r: seq<Offset>)
    requires Complete(d)
    ensures KickIndex(from, to).None? ==> r == []
    ensures KickIndex(from, to).Some? && kind == I ==> r == d.forI[KickIndex(from, to).value]
    ensures KickIndex(from, to).Some? && kind != I ==> r == d.normal[KickIndex(from, to).value]
  {
    match KickIndex(from, to)
    case None => []
    case Some(k) => if kind == I then d.forI[k] else d.normal[k]
  }
}
