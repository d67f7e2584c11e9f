/** The piece randomizer: a rule builds one batch of pieces at a time, and the bag hands the
    batch out piece by piece, building the next batch only once the current one is used up.
    The random engine is the draw stream of RandomChoice; a shuffle draws every element of the
    batch without replacement, so it can produce any order. */
module Bags {
  import opened Tetromino
  import opened RandomChoice

  /** `bag7`, `bag14`, `bag7x<N>` and `bag_classic`. */
  datatype BagRule = Bag7 | Bag14 | Bag7x(extra: nat) | Classic

  /** The extra pieces of `bag7x`: n uniform picks from the seven kinds. */
  function Extras(n: nat, rng: Entropy): (r: (seq<MinoType>, Entropy))
    ensures |r.0| == n && forall a :: 0 <= a < n ==> r.0[a] in Kinds
  {
    if n == 0 then ([], rng)
    else
      var (k, rng1) := Pick(Kinds, rng);
      var rest := Extras(n - 1, rng1);
      ([k] + rest.0, rest.1)
  }

  /** What a shuffling rule shuffles: the seven kinds, twice the seven kinds, or the seven
      kinds and N extra picks. */
  function ShufflePool(rule: BagRule, rng: Entropy): (r: (seq<MinoType>, Entropy))
    requires !rule.Classic?
    ensures |r.0| >= 7
  {
    match rule
    case Bag7 => (Kinds, rng)
    case Bag14 => (Kinds + Kinds, rng)
    case Bag7x(n) =>
      var extra := Extras(n, rng);
      (Kinds + extra.0, extra.1)
  }

  /** `generate` of each rule, as the kinds of the batch it builds: a shuffle of the whole
      pool, or one pick for `bag_classic`. */
  function Batch(rule: BagRule, rng: Entropy): (r: (seq<MinoType>, Entropy))
    ensures |r.0| > 0
  {
    if rule.Classic? then
      var k := Pick(Kinds, rng);
      ([k.0], k.1)
    else
      var pool := ShufflePool(rule, rng);
      Arrange(pool.0, |pool.0|, pool.1)
  }

  /** A `bag7` batch is the seven pieces in some order. */
  lemma Bag7IsPermutation(rng: Entropy)
    ensures multiset(Batch(Bag7, rng).0) == multiset(Kinds)
  {
  }

  /** Every order of the seven pieces is a `bag7` batch for some draws: the model leaves
      the shuffle fully open. */
  lemma Bag7TakesEveryOrder(v: seq<MinoType>) returns (rng: Entropy)
    requires multiset(v) == multiset(Kinds)
    ensures Batch(Bag7, rng).0 == v
  {
    assert |v| == |multiset(v)| == |multiset(Kinds)| == 7;
    rng := ArrangeReachable(Kinds, v);
  }

  /** A `bag14` batch has 14 pieces, each kind exactly twice. */
  lemma Bag14HasEachTwice(rng: Entropy, k: MinoType)
    ensures |Batch(Bag14, rng).0| == 14
    ensures multiset(Batch(Bag14, rng).0)[k] == if k == INVALID then 0 else 2
  {
    var b := Batch(Bag14, rng).0;
    assert multiset(b) == multiset(Kinds + Kinds) == multiset(Kinds) + multiset(Kinds);
    KindsAreTheRealKinds(k);
    DistinctKindsCountOnce(k);
  }

  lemma DistinctKindsCountOnce(k: MinoType)
    ensures multiset(Kinds)[k] == if k == INVALID then 0 else 1
  {
    KindsAreTheRealKinds(k);
    assert Distinct(Kinds);
    DistinctCountAtMostOne(Kinds, k);
    if k != INVALID {
      assert k in multiset(Kinds);
    }
  }

  /** A `bag7x<N>` batch has 7 + N pieces and holds every kind at least once. */
  lemma Bag7xHasEveryKind(n: nat, rng: Entropy, k: MinoType)
    requires k != INVALID
    ensures |Batch(Bag7x(n), rng).0| == 7 + n
    ensures k in Batch(Bag7x(n), rng).0
  {
    var (extra, rng1) := Extras(n, rng);
    var b := Batch(Bag7x(n), rng).0;
    assert b == Arrange(Kinds + extra, 7 + n, rng1).0;
    assert multiset(b) == multiset(Kinds + extra) == multiset(Kinds) + multiset(extra);
    KindsAreTheRealKinds(k);
    assert k in multiset(Kinds);
    assert k in multiset(b);
  }

  /** A `bag_classic` batch is a single piece. */
  lemma ClassicIsOnePiece(rng: Entropy)
    ensures |Batch(Classic, rng).0| == 1 && Batch(Classic, rng).0[0] in Kinds
  {
  }

  /** A batch builder: from the draws, the kinds of one batch and the draws left over. */
  type Generator = Entropy -> (seq<MinoType>, Entropy)

  /** Every batch it builds has at least one piece. */
  ghost predicate Productive(gen: Generator) {
    forall rng :: |gen(rng).0| > 0
  }

  /** The generator of a rule. */
  function Builder(rule: BagRule): (gen: Generator)
    ensures Productive(gen)
    ensures forall rng :: gen(rng) == Batch(rule, rng)
  {
    rng => Batch(rule, rng)
  }

  /** The kinds of the first k pieces of the batches a generator builds one after another
      from the given draws. */
  function Batches(gen: Generator, rng: Entropy, k: nat): (r: seq<MinoType>)
    requires Productive(gen)
    ensures |r| == k
    decreases k
  {
    if k == 0 then []
    else
      var p := gen(rng);
      if k <= |p.0| then p.0[..k] else p.0 + Batches(gen, p.1, k - |p.0|)
  }

  /** The kinds of the next k pieces a bag hands out: what is left of its batch, then the
      batches it builds once that is used up. Pieces compare by kind, so the kinds are what
      the order is about. */
  function Upcoming(gen: Generator, batch: seq<MinoType>, cursor: nat, rng: Entropy, k: nat): (r: seq<MinoType>)
    requires Productive(gen) && cursor <= |batch|
    ensures |r| == k
  {
    if k <= |batch| - cursor then batch[cursor..cursor + k]
    else batch[cursor..] + Batches(gen, rng, k - (|batch| - cursor))
  }

  /** The pieces still in the batch come out first, in their order. */
  lemma RestOfBatchFirst(gen: Generator, batch: seq<MinoType>, cursor: nat, rng: Entropy)
    requires Productive(gen) && cursor <= |batch|
    ensures Upcoming(gen, batch, cursor, rng, |batch| - cursor) == batch[cursor..]
  {
  }

  /** A bag whose batch is used up builds a new one and hands it out whole, in order. */
  lemma FreshBatchFirst(gen: Generator, batch: seq<MinoType>, rng: Entropy)
    requires Productive(gen)
    ensures Upcoming(gen, batch, |batch|, rng, |gen(rng).0|) == gen(rng).0
  {
    var b := gen(rng).0;
    assert Batches(gen, rng, |b|) == b[..|b|];
  }

  /** Handing out a piece still in the batch: it comes first, the rest follows. */
  lemma TakeFromBatch(gen: Generator, batch: seq<MinoType>, cursor: nat, rng: Entropy, k: nat)
    requires Productive(gen) && cursor < |batch|
    ensures Upcoming(gen, batch, cursor, rng, k + 1) == [batch[cursor]] + Upcoming(gen, batch, cursor + 1, rng, k)
  {
    var left := |batch| - cursor;
    if k + 1 <= left {
      assert batch[cursor..cursor + k + 1] == [batch[cursor]] + batch[cursor + 1..cursor + 1 + k];
    } else {
      var rest := Batches(gen, rng, k + 1 - left);
      assert batch[cursor..][1..] == batch[cursor + 1..];
      ConsAppend(batch[cursor..], rest);
    }
  }

  /** Handing out a piece once the batch is used up: the first piece of a new batch comes
      first, and the rest of that batch follows. */
  lemma TakeFromNewBatch(gen: Generator, batch: seq<MinoType>, rng: Entropy, k: nat)
    requires Productive(gen)
    ensures var p := gen(rng);
      Upcoming(gen, batch, |batch|, rng, k + 1) == [p.0[0]] + Upcoming(gen, p.0, 1, p.1, k)
  {
    var p := gen(rng);
    var b := p.0;
    if k + 1 <= |b| {
      assert b[..k + 1] == [b[0]] + b[1..1 + k];
    } else {
      var rest := Batches(gen, p.1, k + 1 - |b|);
      ConsAppend(b, rest);
    }
  }

  lemma ConsAppend<X>(s: seq<X>, rest: seq<X>)
    requires |s| > 0
    ensures s + rest == [s[0]] + (s[1..] + rest)
  {
    assert s == [s[0]] + s[1..];
  }

  /** From an empty `bag7`, the first seven pieces are the seven kinds in some order. */
  lemma FirstSevenArePermutation(rng: Entropy)
    ensures multiset(Upcoming(Builder(Bag7), [], 0, rng, 7)) == multiset(Kinds)
  {
    FreshBatchFirst(Builder(Bag7), [], rng);
    Bag7IsPermutation(rng);
  }

  /** `bag<_Rule>`: `generate` is the rule's `_Rule::generate`. */
  class Bag {
    const generate: Generator
    var queue: seq<Mino>
    var cursor: nat
    var rng: Entropy

    ghost predicate Valid()
      reads this
    {
      Productive(generate) && cursor <= |queue| && AllFit(queue)
    }

    /** `bag(rand)`: an empty batch, so the first `next` builds one. */
    constructor (gen: Generator, draws: Entropy)
      requires Productive(gen)
      ensures Valid() && generate == gen && queue == [] && cursor == 0 && rng == draws
    {
      generate, queue, cursor, rng := gen, [], 0, draws;
    }

    /** `bag(container, rand)`: the given pieces are the current batch, unshuffled. */
    constructor FromPieces(gen: Generator, pieces: seq<Mino>, draws: Entropy)
      requires Productive(gen) && AllFit(pieces)
      ensures Valid() && generate == gen && queue == pieces && cursor == 0 && rng == draws
      ensures Ahead(|pieces|) == KindsOf(pieces)
    {
      generate, queue, cursor, rng := gen, pieces, 0, draws;
      new;
      assert KindsOf(pieces)[0..] == KindsOf(pieces);
    }

    /** The kinds of the pieces this bag will hand out next. */
    ghost function Ahead(k: nat): seq<MinoType>
      reads this
      requires Valid()
    {
      Upcoming(generate, KindsOf(queue), cursor, rng, k)
    }

    /** `next`: builds a new batch only when the current one is used up, then hands out the
        piece at the cursor and moves past it. What it returns is the first piece ahead, and
        what was ahead beyond it is what is ahead now. */
    method Next() returns (t: Mino)
      requires Valid()
      modifies this
      ensures Valid() && Fits(t)
      ensures old(cursor) < |old(queue)| ==>
        queue == old(queue) && rng == old(rng) && cursor == old(cursor) + 1 && t == queue[old(cursor)]
      ensures old(cursor) == |old(queue)| ==>
        queue == Shapes(generate(old(rng)).0) && rng == generate(old(rng)).1 &&
        cursor == 1 && t == queue[0]
      ensures forall k: nat :: old(Ahead(k + 1)) == [t.kind] + Ahead(k)
    {
      if cursor == |queue| {
        var b := generate(rng);
        forall k: nat ensures Ahead(k + 1) == [b.0[0]] + Upcoming(generate, b.0, 1, b.1, k) {
          TakeFromNewBatch(generate, KindsOf(queue), rng, k);
        }
        queue := Shapes(b.0);
        KindsOfShapes(b.0);
        ShapesFit(b.0);
        rng := b.1;
        cursor := 1;
        t := queue[0];
      } else {
        var ks, c, draws := KindsOf(queue), cursor, rng;
        var after := c + 1;
        forall k: nat ensures Ahead(k + 1) == [ks[c]] + Upcoming(generate, ks, after, draws, k) {
          TakeFromBatch(generate, ks, c, draws, k);
        }
        t := queue[cursor];
        cursor := cursor + 1;
      }
    }

    /** `reset`: drops the batch, so the next `next` builds a new one. */
    method Reset()
      requires Valid()
      modifies this
      ensures Valid() && queue == [] && cursor == 0 && rng == old(rng)
    {
      queue := [];
      cursor := 0;
    }
  }
}
