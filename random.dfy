/** The random engine, seen only through what the rules draw from it. The engine is a stream
    of raw draws consumed from the front; an exhausted stream keeps drawing 0. A uniform pick
    from a pool takes one draw modulo the pool size, and drawing k elements without
    replacement in random order (a sample followed by a shuffle) takes one draw per element.
    Every outcome the real engine can produce is produced by some stream (ArrangeReachable). */
module RandomChoice {

  type Entropy = seq<nat>

  function Head(rng: Entropy): nat {
    if rng == [] then 0 else rng[0]
  }

  function Tail(rng: Entropy): (r: Entropy)
    ensures |r| <= |rng|
  {
    if rng == [] then [] else rng[1..]
  }

  function Min(a: nat, b: nat): nat {
    if a <= b then a else b
  }

  /** One uniform pick from a non-empty pool. */
  function Pick<T>(pool: seq<T>, rng: Entropy): (r: (T, Entropy))
    requires |pool| > 0
    ensures r.0 in pool
  {
    (pool[Head(rng) % |pool|], Tail(rng))
  }

  function Remove<T>(s: seq<T>, i: nat): (r: seq<T>)
    requires i < |s|
    ensures |r| == |s| - 1
    ensures multiset(s) == multiset(r) + multiset{s[i]}
  {
    assert s == s[..i] + [s[i]] + s[i + 1..];
    s[..i] + s[i + 1..]
  }

  /** k elements of the pool drawn without replacement, in random order. */
  function Arrange<T>(pool: seq<T>, k: nat, rng: Entropy): (r: (seq<T>, Entropy))
    ensures |r.0| == Min(k, |pool|)
    ensures multiset(r.0) <= multiset(pool)
    ensures k >= |pool| ==> multiset(r.0) == multiset(pool)
    decreases k
  {
    if k == 0 || |pool| == 0 then ([], rng)
    else
      var i := Head(rng) % |pool|;
      var rest := Arrange(Remove(pool, i), k - 1, Tail(rng));
      ([pool[i]] + rest.0, rest.1)
  }

  /** Any k elements of the pool, in any order, are what some stream of draws produces: the
      model leaves the choice fully open. */
  lemma {:induction false} ArrangeReachable<T>(pool: seq<T>, v: seq<T>) returns (rng: Entropy)
    requires multiset(v) <= multiset(pool)
    ensures Arrange(pool, |v|, rng).0 == v
    decreases |v|
  {
    if v == [] {
      rng := [];
    } else {
      var i := IndexOfFirst(v, pool);
      var w, smaller := v[1..], Remove(pool, i);
      DropBoth(v, pool, i);
      var rest := ArrangeReachable(smaller, w);
      rng := [i] + rest;
      ArrangeFront(pool, i, |w|, rest);
    }
  }

  /** A stream that starts with draw i takes pool[i] first. */
  lemma ArrangeFront<T>(pool: seq<T>, i: nat, k: nat, rest: Entropy)
    requires i < |pool|
    ensures Arrange(pool, k + 1, [i] + rest).0 == [pool[i]] + Arrange(Remove(pool, i), k, rest).0
  {
    var rng := [i] + rest;
    assert Head(rng) == i;
    SmallMod(i, |pool|);
    assert Tail(rng) == rest;
    ArrangeStep(pool, k + 1, rng);
  }

  lemma ArrangeStep<T>(pool: seq<T>, k: nat, rng: Entropy)
    requires k > 0 && |pool| > 0
    ensures Arrange(pool, k, rng).0
         == [pool[Head(rng) % |pool|]] + Arrange(Remove(pool, Head(rng) % |pool|), k - 1, Tail(rng)).0
  {
  }

  /** A position of the pool holding the first element of v. */
  lemma IndexOfFirst<T>(v: seq<T>, pool: seq<T>) returns (i: nat)
    requires |v| > 0 && multiset(v) <= multiset(pool)
    ensures i < |pool| && pool[i] == v[0] && v == [pool[i]] + v[1..]
  {
    assert v[0] in multiset(v);
    assert v[0] in multiset(pool);
    i :| i < |pool| && pool[i] == v[0];
  }

  lemma SmallMod(i: nat, n: nat)
    requires i < n
    ensures i % n == i
  {
  }

  lemma DropBoth<T>(v: seq<T>, pool: seq<T>, i: nat)
    requires |v| > 0 && i < |pool| && pool[i] == v[0]
    requires multiset(v) <= multiset(pool)
    ensures multiset(v[1..]) <= multiset(Remove(pool, i))
  {
    assert v == [v[0]] + v[1..];
    assert multiset(v) == multiset(v[1..]) + multiset{v[0]};
    forall y ensures multiset(v[1..])[y] <= multiset(Remove(pool, i))[y] {
      assert multiset(v)[y] <= multiset(pool)[y];
    }
  }

  /** Whatever is drawn comes from the pool. */
  lemma DrawnFromPool<T>(pool: seq<T>, k: nat, rng: Entropy)
    ensures forall x :: x in Arrange(pool, k, rng).0 ==> x in pool
  {
    var d := Arrange(pool, k, rng).0;
    forall x | x in d ensures x in pool {
      assert x in multiset(d);
    }
  }

  /** A pool holding one value twice yields that value twice, whatever the draws. */
  lemma ArrangeOfRepeat<T>(x: T, rng: Entropy)
    ensures Arrange([x, x], 2, rng).0 == [x, x]
  {
    DrawnFromPool([x, x], 2, rng);
  }

  ghost predicate Distinct<T>(s: seq<T>) {
    forall a, b :: 0 <= a < b < |s| ==> s[a] != s[b]
  }

  lemma SubMultisetOfDistinct<T>(s: seq<T>, pool: seq<T>)
    requires Distinct(pool) && multiset(s) <= multiset(pool)
    ensures Distinct(s)
  {
    forall a, b | 0 <= a < b < |s| ensures s[a] != s[b] {
      if s[a] == s[b] {
        RepeatCountsTwice(s, a, b);
        DistinctCountAtMostOne(pool, s[a]);
      }
    }
  }

  /** A value at two positions occurs at least twice. */
  lemma RepeatCountsTwice<T>(s: seq<T>, a: nat, b: nat)
    requires a < b < |s| && s[a] == s[b]
    ensures multiset(s)[s[a]] >= 2
  {
    var x := s[a];
    assert s == s[..b] + [x] + s[b + 1..];
    assert x in s[..b];
    assert multiset(s) == multiset(s[..b]) + multiset{x} + multiset(s[b + 1..]);
  }

  /** A permutation of a sequence with a repeat has the same repeat. */
  lemma PermutationKeepsRepeat<T>(s: seq<T>, t: seq<T>)
    requires multiset(s) == multiset(t) && !Distinct(s)
    ensures !Distinct(t)
  {
    var a, b :| 0 <= a < b < |s| && s[a] == s[b];
    RepeatCountsTwice(s, a, b);
    if Distinct(t) {
      DistinctCountAtMostOne(t, s[a]);
    }
  }

  lemma {:induction false} DistinctCountAtMostOne<T>(pool: seq<T>, x: T)
    requires Distinct(pool)
    ensures multiset(pool)[x] <= 1
    decreases |pool|
  {
    if pool != [] {
      assert pool == [pool[0]] + pool[1..];
      DistinctCountAtMostOne(pool[1..], x);
      if pool[0] == x {
        assert x !in pool[1..];
      }
    }
  }
}
