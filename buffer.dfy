/** The undo history: a fixed-capacity circular log over a virtual index space. Entry i of
    the log is stored in slot i mod N. Three cursors mark the oldest entry (start), the
    newest (last) and the entry in use (current); a fresh or cleared log has current = -1
    (the source's all-ones `size_t`), start = 0 and last = 0, and holds nothing. */
module History {

  /** The log's state, with the array contents as a sequence. */
  datatype Cursors<T> = Cursors(slots: seq<T>, current: int, start: int, last: int)

  predicate Fresh<T>(s: Cursors<T>) {
    s.current == -1
  }

  /** A log either holds nothing, or the entries start..last, with the cursor among them and
      at most N of them live (so they sit in distinct slots). */
  ghost predicate Inv<T>(s: Cursors<T>) {
    |s.slots| > 0 &&
    if Fresh(s) then s.start == 0 && s.last == 0
    else 0 <= s.start <= s.current <= s.last < s.start + |s.slots|
  }

  /** The live entries, oldest first. */
  ghost function Live<T>(s: Cursors<T>): (r: seq<T>)
    requires Inv(s)
    ensures Fresh(s) <==> |r| == 0
    ensures !Fresh(s) ==> |r| == s.last - s.start + 1 <= |s.slots|
  {
    if Fresh(s) then []
    else seq(s.last - s.start + 1, k requires 0 <= k < s.last - s.start + 1 => s.slots[(s.start + k) % |s.slots|])
  }

  /** The entries up to and including the one in use: what undo can go back through. */
  ghost function Past<T>(s: Cursors<T>): seq<T>
    requires Inv(s)
  {
    if Fresh(s) then [] else Live(s)[..s.current - s.start + 1]
  }

  /** The newest n entries of a history. */
  function Keep<T>(h: seq<T>, n: nat): (r: seq<T>)
    ensures |r| <= n && |r| <= |h|
    ensures |h| <= n ==> r == h
  {
    if |h| > n then h[|h| - n..] else h
  }

  // ---------------------------------------------------------------- the operations

  /** `push`: the cursor moves one past the entry in use and every later entry is dropped;
      the value goes to the cursor's slot; when that makes N + 1 entries the oldest goes. */
  function AfterPush<T>(s: Cursors<T>, v: T): Cursors<T>
    requires Inv(s)
  {
    var c := s.current + 1;
    var n := |s.slots|;
    Cursors(s.slots[c % n := v], c, if c - s.start == n then s.start + 1 else s.start, c)
  }

  /** `size`: last - start, one less than the number of live entries. */
  function SizeOf<T>(s: Cursors<T>): (n: int)
    requires Inv(s)
    ensures n >= 0 && (!Fresh(s) ==> n == |Live(s)| - 1)
  {
    s.last - s.start
  }

  /** `pop`: nothing when `size` is 0 (a log with at most one entry); otherwise the newest
      slot is reset to `blank` (the source's `T()`), last steps back, and the cursor with it
      if it was there. */
  function AfterPop<T>(s: Cursors<T>, blank: T): Cursors<T>
    requires Inv(s)
  {
    if s.last - s.start == 0 then s
    else
      Cursors(s.slots[s.last % |s.slots| := blank], if s.current == s.last then s.current - 1 else s.current,
              s.start, s.last - 1)
  }

  /** `next`: false at the newest entry; otherwise one step forward. */
  function AfterNext<T>(s: Cursors<T>): (bool, Cursors<T>) {
    if s.current == s.last then (false, s) else (true, s.(current := s.current + 1))
  }

  /** `prev`: false at the oldest entry; otherwise one step back. */
  function AfterPrev<T>(s: Cursors<T>): (bool, Cursors<T>) {
    if s.current == s.start then (false, s) else (true, s.(current := s.current - 1))
  }

  /** `clear`: the cursors of a fresh log; the slots keep their contents. */
  function AfterClear<T>(s: Cursors<T>): (r: Cursors<T>)
    ensures Fresh(r) && r.slots == s.slots
    ensures Inv(s) ==> Inv(r) && Live(r) == []
  {
    Cursors(s.slots, -1, 0, 0)
  }

  /** `current`: the entry in use. On a fresh log the cursor is the all-ones `size_t` of a
      64-bit target, 2^64 - 1, so the read is of slot (2^64 - 1) mod N, where nothing is live. */
  function Current<T>(s: Cursors<T>): (v: T)
    requires Inv(s)
    ensures !Fresh(s) ==> v == Live(s)[s.current - s.start]
    ensures Fresh(s) ==> Live(s) == [] && v == s.slots[0xFFFF_FFFF_FFFF_FFFF % |s.slots|]
  {
    s.slots[(if s.current < 0 then 0xFFFF_FFFF_FFFF_FFFF else s.current) % |s.slots|]
  }

  // ---------------------------------------------------------------- slots

  lemma MulAtLeast(m: int, n: nat)
    requires m >= 1
    ensures m * n >= n
  {
    assert m * n == (m - 1) * n + n;
  }

  /** The remainder of Euclidean division is the only one in range. */
  lemma ModUnique(x: int, q: int, r: int, n: nat)
    requires n > 0 && x == q * n + r && 0 <= r < n
    ensures x % n == r
  {
    var q', r' := x / n, x % n;
    assert x == q' * n + r';
    if q > q' {
      MulAtLeast(q - q', n);
    } else if q < q' {
      MulAtLeast(q' - q, n);
    }
  }

  /** Entries less than N apart sit in different slots. */
  lemma SlotsDiffer(a: int, b: int, n: nat)
    requires n > 0 && 0 <= a < b < a + n
    ensures a % n != b % n
  {
    var q, r := a / n, a % n;
    var d := b - a;
    if r + d < n {
      ModUnique(b, q, r + d, n);
    } else {
      assert b == (q + 1) * n + (r + d - n);
      ModUnique(b, q + 1, r + d - n, n);
    }
  }

  // ---------------------------------------------------------------- what the operations keep

  lemma PushKeepsInv<T>(s: Cursors<T>, v: T)
    requires Inv(s)
    ensures Inv(AfterPush(s, v)) && !Fresh(AfterPush(s, v))
  {
  }

  /** After a push the log is the past up to the entry in use, then the new value, less the
      oldest entry when that would make N + 1: the redo future is gone, the oldest entry goes
      once the log is full, and the cursor is at the new value. */
  lemma {:induction false} PushLive<T>(s: Cursors<T>, v: T)
    requires Inv(s)
    ensures var t := AfterPush(s, v);
      Live(t) == Keep(Past(s) + [v], |s.slots|) && t.current == t.last
  {
    var t := AfterPush(s, v);
    var h := Past(s) + [v];
    PushKeepsInv(s, v);
    if Fresh(s) {
      assert Live(t) == [v];
    } else {
      var d := t.start - s.start;
      assert Keep(h, |s.slots|) == h[d..];
      forall k | 0 <= k < |Live(t)|
        ensures Live(t)[k] == h[d..][k]
      {
        PushLiveAt(s, v, k);
      }
    }
  }

  lemma PushLiveAt<T>(s: Cursors<T>, v: T, k: nat)
    requires Inv(s) && !Fresh(s)
    requires k < |Live(AfterPush(s, v))|
    ensures Live(AfterPush(s, v))[k] == (Past(s) + [v])[AfterPush(s, v).start - s.start + k]
  {
    var t := AfterPush(s, v);
    PushKeepsInv(s, v);
    var i := t.start + k;
    var j := i - s.start;
    var past := Past(s);
    assert |past| == s.current - s.start + 1;
    assert t.last == s.current + 1 && i <= t.last;
    LiveIndex(t, i);
    PushSlot(s, v, i);
    if i <= s.current {
      LiveIndex(s, i);
      assert (past + [v])[j] == past[j] == Live(s)[j];
    } else {
      assert j == |past|;
      assert (past + [v])[j] == v;
    }
  }

  /** Entry i of a log is in slot i mod N. */
  lemma LiveIndex<T>(s: Cursors<T>, i: int)
    requires Inv(s) && !Fresh(s) && s.start <= i <= s.last
    ensures Live(s)[i - s.start] == s.slots[i % |s.slots|]
  {
  }

  /** A push leaves the slots of the entries it keeps alone. */
  lemma PushSlot<T>(s: Cursors<T>, v: T, i: int)
    requires Inv(s) && !Fresh(s) && AfterPush(s, v).start <= i <= s.current + 1
    ensures AfterPush(s, v).slots[i % |s.slots|] == if i == s.current + 1 then v else s.slots[i % |s.slots|]
  {
    if i <= s.current {
      SlotsDiffer(i, s.current + 1, |s.slots|);
    }
  }

  /** `push` advances start exactly when the log already spanned N entries up to the cursor,
      and afterwards `size` is at most N - 1. */
  lemma PushAdvancesStart<T>(s: Cursors<T>, v: T)
    requires Inv(s)
    ensures var t := AfterPush(s, v);
      (t.start == s.start + 1 <==> !Fresh(s) && s.current - s.start == |s.slots| - 1) &&
      (t.start != s.start + 1 ==> t.start == s.start) &&
      t.last == s.current + 1 &&
      SizeOf(t) <= |s.slots| - 1
  {
  }

  /** `pop` drops the newest entry and nothing else; with at most one entry it does nothing. */
  lemma {:induction false} PopLive<T>(s: Cursors<T>, blank: T)
    requires Inv(s)
    ensures Inv(AfterPop(s, blank))
    ensures SizeOf(s) == 0 ==> AfterPop(s, blank) == s
    ensures SizeOf(s) > 0 ==> var t := AfterPop(s, blank);
      Live(t) == Live(s)[..|Live(s)| - 1] && t.start == s.start && t.last == s.last - 1 &&
      t.current == (if s.current == s.last then s.current - 1 else s.current)
  {
    if SizeOf(s) > 0 {
      var t := AfterPop(s, blank);
      assert Inv(t);
      var before := Live(s)[..|Live(s)| - 1];
      forall k | 0 <= k < |Live(t)|
        ensures Live(t)[k] == before[k]
      {
        PopLiveAt(s, blank, k);
      }
    }
  }

  lemma PopLiveAt<T>(s: Cursors<T>, blank: T, k: nat)
    requires Inv(s) && SizeOf(s) > 0 && k < SizeOf(s)
    ensures Inv(AfterPop(s, blank)) && Live(AfterPop(s, blank))[k] == Live(s)[k]
  {
    var t := AfterPop(s, blank);
    var i := s.start + k;
    SlotsDiffer(i, s.last, |s.slots|);
    LiveIndex(t, i);
    LiveIndex(s, i);
  }

  /** `next` fails and changes nothing exactly at the newest entry; otherwise it moves one
      step forward over the same entries. */
  lemma NextMoves<T>(s: Cursors<T>)
    requires Inv(s)
    ensures var (moved, t) := AfterNext(s);
      (moved <==> s.current != s.last) &&
      (!moved ==> t == s) &&
      (moved ==> t == s.(current := s.current + 1)) &&
      Inv(t) && (!Fresh(s) ==> Live(t) == Live(s))
  {
  }

  /** `prev` fails and changes nothing exactly at the oldest entry; otherwise it moves one
      step back over the same entries. */
  lemma PrevMoves<T>(s: Cursors<T>)
    requires Inv(s) && !Fresh(s)
    ensures var (moved, t) := AfterPrev(s);
      (moved <==> s.current != s.start) &&
      (!moved ==> t == s) &&
      (moved ==> t == s.(current := s.current - 1)) &&
      Inv(t) && Live(t) == Live(s)
  {
  }

  // ---------------------------------------------------------------- histories

  /** The log after pushing the values one by one. */
  function PushAll<T>(s: Cursors<T>, vs: seq<T>): (r: Cursors<T>)
    requires Inv(s)
    ensures Inv(r) && |r.slots| == |s.slots|
    ensures |vs| > 0 ==> !Fresh(r)
    decreases |vs|
  {
    if vs == [] then s
    else
      PushKeepsInv(s, vs[0]);
      PushAll(AfterPush(s, vs[0]), vs[1..])
  }

  lemma KeepOfKeep<T>(h: seq<T>, v: T, n: nat)
    requires n > 0
    ensures Keep(Keep(h, n) + [v], n) == Keep(h + [v], n)
  {
    if |h| > n {
      assert Keep(h, n) + [v] == (h + [v])[|h| - n..];
      assert Keep(h, n) + [v] != [];
      assert (Keep(h, n) + [v])[1..] == (h + [v])[|h| + 1 - n..];
    }
  }

  lemma PushAllTail<T>(s: Cursors<T>, vs: seq<T>, v: T)
    requires Inv(s)
    ensures PushAll(s, vs + [v]) == AfterPush(PushAll(s, vs), v)
    decreases |vs|
  {
    if vs != [] {
      PushKeepsInv(s, vs[0]);
      assert (vs + [v])[1..] == vs[1..] + [v];
      PushAllTail(AfterPush(s, vs[0]), vs[1..], v);
    } else {
      assert [v][1..] == [];
    }
  }

  /** From a cleared log, pushing values one by one keeps the newest N of them, with the
      cursor at the newest. */
  lemma {:induction false} PushAllKeepsNewest<T>(s: Cursors<T>, vs: seq<T>)
    requires Inv(s) && Fresh(s)
    ensures var t := PushAll(s, vs);
      Live(t) == Keep(vs, |s.slots|) &&
      (|vs| > 0 ==> t.current == t.last == |vs| - 1 && t.start == (if |vs| > |s.slots| then |vs| - |s.slots| else 0))
    decreases |vs|
  {
    if vs != [] {
      var init, v := vs[..|vs| - 1], vs[|vs| - 1];
      assert vs == init + [v];
      PushAllKeepsNewest(s, init);
      var u := PushAll(s, init);
      PushAllTail(s, init, v);
      PushLive(u, v);
      assert Past(u) == Live(u);
      KeepOfKeep(init, v, |s.slots|);
    }
  }

  /** After N + 1 pushes into a cleared log the oldest entry is the second value pushed, so
      undoing stops one short of the first. */
  lemma OverfullDropsFirst<T>(s: Cursors<T>, vs: seq<T>)
    requires Inv(s) && Fresh(s) && |vs| == |s.slots| + 1
    ensures PushAll(s, vs).start == 1 && Live(PushAll(s, vs)) == vs[1..]
  {
    PushAllKeepsNewest(s, vs);
  }

  /** Clear, push a, b and c, then step back twice: the entry in use is a and a third step
      back fails; stepping forward then gives b. */
  lemma UndoRedo<T>(s: Cursors<T>, a: T, b: T, c: T)
    requires Inv(s) && |s.slots| >= 3
    ensures var t := AfterPush(AfterPush(AfterPush(AfterClear(s), a), b), c);
      var (ok1, t1) := AfterPrev(t);
      var (ok2, t2) := AfterPrev(t1);
      var (ok3, t3) := AfterPrev(t2);
      var (ok4, t4) := AfterNext(t2);
      ok1 && ok2 && Current(t2) == a && !ok3 && t3 == t2 && ok4 && Current(t4) == b
  {
    var n := |s.slots|;
    var t := AfterPush(AfterPush(AfterPush(AfterClear(s), a), b), c);
    assert t.start == 0 && t.current == 2 && t.last == 2;
    SlotsDiffer(0, 2, n);
    SlotsDiffer(1, 2, n);
    SlotsDiffer(0, 1, n);
    assert t.slots[0 % n] == a && t.slots[1 % n] == b;
  }

  // ---------------------------------------------------------------- the buffer object

  /** `buffer<T, N>`: the slots are an array of N values, the cursors integers. */
  class Buffer<T> {
    const capacity: nat
    /** What the source writes with `T()` when it resets a slot. */
    const blank: T
    var data: array<T>
    var current: int
    var start: int
    var last: int

    ghost function Model(): Cursors<T>
      reads this, data
    {
      Cursors(data[..], current, start, last)
    }

    ghost predicate Valid()
      reads this, data
    {
      data.Length == capacity && Inv(Model())
    }

    /** A default-constructed buffer: N reset slots, nothing live. */
    constructor (n: nat, b: T)
      requires n > 0
      ensures Valid() && fresh(data) && capacity == n && blank == b
      ensures Fresh(Model()) && Live(Model()) == []
    {
      capacity, blank := n, b;
      data := new T[n](_ => b);
      current, start, last := -1, 0, 0;
    }

    method Push(v: T)
      requires Valid()
      modifies this, data
      ensures Valid() && data == old(data)
      ensures Model() == AfterPush(old(Model()), v)
    {
      current := current + 1;
      last := current;
      data[current % capacity] := v;
      if current == last && last - start == capacity {
        start := start + 1;
      }
      PushKeepsInv(old(Model()), v);
    }

    method Pop()
      requires Valid()
      modifies this, data
      ensures Valid() && data == old(data)
      ensures Model() == AfterPop(old(Model()), blank)
    {
      if last - start == 0 {
        return;
      }
      data[last % capacity] := blank;
      if current == last {
        current := current - 1;
      }
      last := last - 1;
      PopLive(old(Model()), blank);
    }

    method Next() returns (moved: bool)
      requires Valid()
      modifies this
      ensures Valid()
      ensures (moved, Model()) == AfterNext(old(Model()))
    {
      if IsLast() {
        return false;
      }
      current := current + 1;
      return true;
    }

    method Prev() returns (moved: bool)
      requires Valid() && !Fresh(Model())
      modifies this
      ensures Valid()
      ensures (moved, Model()) == AfterPrev(old(Model()))
    {
      if IsFirst() {
        return false;
      }
      current := current - 1;
      return true;
    }

    method Clear()
      requires Valid()
      modifies this
      ensures Valid()
      ensures Model() == AfterClear(old(Model()))
    {
      current, start, last := -1, 0, 0;
    }

    /** `is_first`: the entry in use is the oldest, exactly when `prev` would fail and
        leave the log as it is. */
    predicate IsFirst(): (b: bool)
      reads this, data
      ensures b <==> !AfterPrev(Model()).0
      ensures b ==> AfterPrev(Model()).1 == Model()
    {
      current == start
    }

    /** `is_last`: the entry in use is the newest, exactly when `next` would fail and leave
        the log as it is. */
    predicate IsLast(): (b: bool)
      reads this, data
      ensures b <==> !AfterNext(Model()).0
      ensures b ==> AfterNext(Model()).1 == Model()
    {
      current == last
    }

    /** `current()`: the slot under the cursor, as `Current` says. */
    function CurrentValue(): (v: T)
      reads this, data
      requires Valid()
      ensures !Fresh(Model()) ==> v == Live(Model())[current - start]
      ensures Fresh(Model()) ==> Live(Model()) == [] && v == data[0xFFFF_FFFF_FFFF_FFFF % capacity]
    {
      data[(if current < 0 then 0xFFFF_FFFF_FFFF_FFFF else current) % capacity]
    }

    function Size(): (n: int)
      reads this, data
      requires Valid()
      ensures n == SizeOf(Model())
    {
      last - start
    }

    predicate Empty()
      reads this, data
      requires Valid()
      ensures Empty() <==> Fresh(Model()) || |Live(Model())| == 1
    {
      Size() == 0
    }
  }
}
