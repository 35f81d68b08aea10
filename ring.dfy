/**
 * The logical view of a fixed-capacity ring buffer, as pure functions.
 *
 * A buffer of capacity n always exposes exactly n values in recency order:
 * rank 0 is the value pushed last, rank n - 1 the oldest still kept. Both
 * copies of the buffer class (modules CircularBuffer and Util) are specified
 * against the functions here, so their behaviour is stated once.
 */
module Ring {

  /** The view right after construction: every rank holds the default. */
  function Filled<T>(n: nat, d: T): (s: seq<T>)
    ensures |s| == n
    ensures forall r :: 0 <= r < n ==> s[r] == d
  {
    seq(n, _ => d)
  }

  /**
   * The view after pushing v onto view s: v becomes rank 0, every other value
   * becomes one rank older, and the value at the oldest rank is evicted.
   */
  function Shifted<T>(s: seq<T>, v: T): (t: seq<T>)
    requires |s| >= 1
    ensures |t| == |s| && t[0] == v
    ensures forall r :: 0 <= r < |s| - 1 ==> t[r + 1] == s[r]
  {
    [v] + s[..|s| - 1]
  }

  /** The view of a capacity-n buffer built with default d after pushing vs, in order. */
  function History<T>(n: nat, d: T, vs: seq<T>): (s: seq<T>)
    requires n >= 1
    ensures |s| == n
    decreases |vs|
  {
    if vs == [] then Filled(n, d)
    else Shifted(History(n, d, vs[..|vs| - 1]), vs[|vs| - 1])
  }

  /**
   * What rank r should hold after pushing vs onto a buffer filled with d,
   * stated without reference to any buffer: the value pushed r pushes ago,
   * or the default when fewer than r + 1 values were pushed.
   */
  function RankValue<T>(d: T, vs: seq<T>, r: nat): T
  {
    if r < |vs| then vs[|vs| - 1 - r] else d
  }

  /** The view agrees rank by rank with the buffer-free description. */
  lemma {:induction false} HistoryAt<T>(n: nat, d: T, vs: seq<T>, r: nat)
    requires n >= 1 && r < n
    ensures History(n, d, vs)[r] == RankValue(d, vs, r)
    decreases |vs|
  {
    if vs != [] && r > 0 {
      HistoryAt(n, d, vs[..|vs| - 1], r - 1);
    }
  }

  /** An instance with capacity 4: three pushes keep the default at rank 3, a fourth evicts it. */
  lemma WraparoundExample<T>(d: T, v1: T, v2: T, v3: T, v4: T)
    ensures History(4, d, [v1, v2, v3]) == [v3, v2, v1, d]
    ensures History(4, d, [v1, v2, v3, v4]) == [v4, v3, v2, v1]
  {
    HistoryAt(4, d, [v1, v2, v3], 0);
    HistoryAt(4, d, [v1, v2, v3], 1);
    HistoryAt(4, d, [v1, v2, v3], 2);
    HistoryAt(4, d, [v1, v2, v3], 3);
    HistoryAt(4, d, [v1, v2, v3, v4], 0);
    HistoryAt(4, d, [v1, v2, v3, v4], 1);
    HistoryAt(4, d, [v1, v2, v3, v4], 2);
    HistoryAt(4, d, [v1, v2, v3, v4], 3);
  }

  /** The slot a push moves the head to: the one just before it, cyclically. */
  function Prev(start: nat, n: nat): (p: nat)
    requires n >= 1 && start < n
    ensures p < n && (p + 1) % n == start
  {
    ModBelowTwice(if start == 0 then n else start, n);
    if start == 0 then n - 1 else start - 1
  }

  /**
   * How a buffer's slots hold its view: with the head at slot `start`,
   * rank r is stored in slot (start + r) % n.
   */
  ghost predicate Stores<T>(contents: seq<T>, slots: seq<T>, start: nat)
  {
    |slots| >= 1 && |contents| == |slots| && start < |slots| &&
    forall r :: 0 <= r < |slots| ==> contents[r] == slots[(start + r) % |slots|]
  }

  /** A freshly filled buffer, head at slot 0, stores the filled view. */
  lemma StoresFilled<T>(n: nat, d: T)
    requires n >= 1
    ensures Stores(Filled(n, d), Filled(n, d), 0)
  {
  }

  /**
   * Moving the head back one slot and overwriting that slot with v stores
   * the view with v pushed.
   */
  lemma StoresAfterPush<T>(contents: seq<T>, slots: seq<T>, start: nat, v: T)
    requires Stores(contents, slots, start)
    ensures Stores(Shifted(contents, v), slots[Prev(start, |slots|) := v], Prev(start, |slots|))
  {
    var n := |slots|;
    var p := Prev(start, n);
    var contents', slots' := Shifted(contents, v), slots[p := v];
    forall r | 0 <= r < n
      ensures contents'[r] == slots'[(p + r) % n]
    {
      if r == 0 {
        ModBelowTwice(p, n);
      } else {
        SlotAfterPush(start, n, r);
        assert contents[r - 1] == slots[(start + (r - 1)) % n];
      }
    }
  }

  /** Reading slot (start + index) % n gives rank index % n of the view: reads wrap. */
  lemma StoresAt<T>(contents: seq<T>, slots: seq<T>, start: nat, index: nat)
    requires Stores(contents, slots, start)
    ensures 0 <= (start + index) % |slots| < |slots| && 0 <= index % |slots| < |contents|
    ensures slots[(start + index) % |slots|] == contents[index % |slots|]
  {
    ModAbsorb(start, index, |slots|);
  }

  /**
   * After the head moves to Prev(start, n), rank r >= 1 is found where rank
   * r - 1 was found before, and never in the slot the push overwrote.
   */
  lemma SlotAfterPush(start: nat, n: nat, r: nat)
    requires n >= 1 && start < n && 1 <= r < n
    ensures (Prev(start, n) + r) % n == (start + r - 1) % n
    ensures (Prev(start, n) + r) % n != Prev(start, n)
  {
    ModBelowTwice(Prev(start, n) + r, n);
    ModBelowTwice(start + r - 1, n);
  }

  /** Reducing the index modulo n before adding the head changes no slot. */
  lemma {:induction false} ModAbsorb(s: nat, i: nat, n: nat)
    requires n >= 1
    ensures (s + i) % n == (s + i % n) % n
    decreases i
  {
    if i >= n {
      ModSubN(s + i, n);
      ModSubN(i, n);
      ModAbsorb(s, i - n, n);
    } else {
      ModBelowTwice(i, n);
    }
  }

  lemma ModBelowTwice(x: int, n: int)
    requires n >= 1 && 0 <= x < 2 * n
    ensures x % n == if x < n then x else x - n
  {
  }

  lemma MulAtLeast(a: int, n: int)
    requires a >= 1 && n >= 1
    ensures a * n >= n
  {
  }

  /** Euclidean remainder is unique. */
  lemma ModUnique(x: int, q: int, r: int, n: int)
    requires n >= 1 && 0 <= r < n && x == q * n + r
    ensures x % n == r
  {
    var q', r' := x / n, x % n;
    assert x == q' * n + r';
    var d := q - q';
    assert d * n == q * n - q' * n;
    assert d * n == r' - r;
    if d >= 1 {
      MulAtLeast(d, n);
    } else if d <= -1 {
      MulAtLeast(-d, n);
    }
  }

  lemma ModSubN(x: int, n: int)
    requires n >= 1 && x >= n
    ensures x % n == (x - n) % n
  {
    var q := (x - n) / n;
    assert x - n == q * n + (x - n) % n;
    assert x == (q + 1) * n + (x - n) % n;
    ModUnique(x, q + 1, (x - n) % n, n);
  }
}
