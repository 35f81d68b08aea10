/**
 * The copy of the ring buffer kept in src/util.rs (its colour-conversion
 * helper is not part of this model).
 *
 * The text of this class matches src/circular_buffer.rs line for line, and
 * so does this model: the same fields, the same invariant and the same
 * contracts, all stated against module Ring. CopiesAgree below shows that
 * a buffer of either kind with the same capacity, default and pushes gives
 * the same answer to every read.
 */
module Util {
  import Ring
  import CB = CircularBuffer

  class CircularBuffer<T> {
    /** The capacity N, fixed for the buffer's lifetime. */
    const n: nat
    /** The N slots, all initialised at construction and never reallocated. */
    const buffer: array<T>
    /** The slot holding the most recent value. */
    var start: nat

    /** The values in recency order: contents[r] is the value at rank r. */
    ghost var contents: seq<T>
    /** The value every slot was filled with at construction. */
    ghost const initial: T
    /** Every value pushed since construction, oldest first. */
    ghost var pushed: seq<T>

    /** The slots hold the view, rank r in slot (start + r) % n. */
    ghost predicate Valid()
      reads this, buffer
    {
      n >= 1 && buffer.Length == n && start < n &&
      Ring.Stores(contents, buffer[..], start)
    }

    /** The view is the one fixed by the default and the pushes since construction. */
    ghost predicate Tracks()
      reads this
    {
      n >= 1 && contents == Ring.History(n, initial, pushed)
    }

    /** A buffer whose every slot, hence every rank, holds `default`. */
    constructor (n: nat, default: T)
      requires n >= 1
      ensures Valid() && Tracks() && fresh(buffer)
      ensures this.n == n && start == 0
      ensures buffer[..] == Ring.Filled(n, default)
      ensures contents == Ring.Filled(n, default)
      ensures initial == default && pushed == []
    {
      this.n := n;
      buffer := new T[n](_ => default);
      start := 0;
      initial := default;
      pushed := [];
      contents := Ring.Filled(n, default);
      new;
      assert buffer[..] == Ring.Filled(n, default);
      Ring.StoresFilled(n, default);
    }

    /**
     * Makes `item` the value at rank 0. Exactly one slot is overwritten, the
     * one just before the old head; the value at the oldest rank is evicted.
     */
    method Push(item: T)
      requires Valid()
      modifies this, buffer
      ensures Valid()
      ensures start == Ring.Prev(old(start), n)
      ensures buffer[..] == old(buffer[..])[start := item]
      ensures contents == Ring.Shifted(old(contents), item)
      ensures pushed == old(pushed) + [item]
      ensures old(Tracks()) ==> Tracks()
    {
      Ring.StoresAfterPush(contents, buffer[..], start, item);
      start := if start == 0 then n - 1 else start - 1;
      buffer[start] := item;
      pushed := pushed + [item];
      contents := Ring.Shifted(contents, item);
      assert pushed[..|pushed| - 1] == old(pushed);
    }

    /**
     * The value at rank `index`. Every index is accepted: it is taken
     * modulo the capacity, so the read is always in bounds and wraps.
     */
    function Get(index: nat): (r: T)
      reads this, buffer
      requires Valid()
      ensures r == contents[index % n]
      ensures Tracks() ==> r == Ring.RankValue(initial, pushed, index % n)
    {
      Ring.StoresAt(contents, buffer[..], start, index);
      Ring.HistoryAt(n, initial, pushed, index % n);
      buffer[(start + index) % n]
    }

    /** A step that leaves the buffer's fields and slots alone leaves it well formed. */
    twostate lemma Untouched()
      requires old(Valid()) && unchanged(this, buffer)
      ensures Valid() && contents == old(contents) && pushed == old(pushed)
    {
    }

    /** Before any push, every read gives the default. */
    lemma ReadsDefault(index: nat)
      requires Valid() && Tracks() && pushed == []
      ensures Get(index) == initial
    {
    }

    /** Reading at `index` and at `index % n` give the same value. */
    lemma GetWraps(index: nat)
      requires Valid()
      ensures Get(index) == Get(index % n)
    {
    }
  }

  /** Both copies expose the same view and answer every read alike. */
  lemma CopiesAgree<T>(a: CB.CircularBuffer<T>, b: CircularBuffer<T>, index: nat)
    requires a.Valid() && a.Tracks() && b.Valid() && b.Tracks()
    requires a.n == b.n && a.initial == b.initial && a.pushed == b.pushed
    ensures a.contents == b.contents
    ensures a.Get(index) == b.Get(index)
  {
  }
}
