/**
 * The three adapters of Rust's standard `Iterator` that the frame selection uses, over the
 * items an iterator has still to yield. An iterator is single-pass: `Find` also returns the
 * items it did not pull, so that a caller can see how far the sequence was consumed.
 */
module Iterators {
  import opened Wrappers

  /** `iter.enumerate()`: each item paired with its position, counting from `start`. */
  function Enumerate<T>(items: seq<T>, start: nat): (r: seq<(nat, T)>)
    ensures |r| == |items|
    ensures forall i :: 0 <= i < |items| ==> r[i] == (start + i, items[i])
    decreases |items|
  {
    if items == [] then [] else [(start, items[0])] + Enumerate(items[1..], start + 1)
  }

  /**
   * `iter.find(p)`: pulls items one at a time until one satisfies `p`, and returns that item
   * (if any) together with the items not yet pulled.
   */
  function Find<T>(items: seq<T>, p: T -> bool): (r: (Option<T>, seq<T>))
    ensures |r.1| < |items| || r.1 == []
    decreases |items|
  {
    if items == [] then (None, [])
    else if p(items[0]) then (Some(items[0]), items[1..])
    else Find(items[1..], p)
  }

  /** Find stops at the first item that satisfies `p` and pulls nothing after it. */
  lemma {:induction false} FindFirstMatch<T>(items: seq<T>, p: T -> bool, k: nat)
    requires k < |items| && p(items[k])
    requires forall j :: 0 <= j < k ==> !p(items[j])
    ensures Find(items, p) == (Some(items[k]), items[k + 1..])
  {
    if k > 0 {
      assert !p(items[0]);
      FindFirstMatch(items[1..], p, k - 1);
      assert items[1..][k..] == items[k + 1..];
    }
  }

  /** When no item satisfies `p`, Find reports nothing and has drained the iterator. */
  lemma {:induction false} FindNoMatch<T>(items: seq<T>, p: T -> bool)
    requires forall j :: 0 <= j < |items| ==> !p(items[j])
    ensures Find(items, p) == (None, [])
  {
    if items != [] {
      assert !p(items[0]);
      FindNoMatch(items[1..], p);
    }
  }

  /**
   * `iter.last()`, Rust's default `fold(None, |_, x| Some(x))`: drains the iterator and keeps
   * the most recent item, starting from `acc`.
   */
  function LastFrom<T>(items: seq<T>, acc: Option<T>): (r: Option<T>)
    ensures r.Some? <==> items != [] || acc.Some?
    decreases |items|
  {
    if items == [] then acc else LastFrom(items[1..], Some(items[0]))
  }

  /** `iter.last()` on a fresh iterator. */
  function LastItem<T>(items: seq<T>): (r: Option<T>)
    ensures r.None? <==> items == []
  {
    LastFrom(items, None)
  }

  /** The fold ends with the final item, or with its seed when there are no items. */
  lemma {:induction false} LastFromIsFinal<T>(items: seq<T>, acc: Option<T>)
    ensures LastFrom(items, acc) == if items == [] then acc else Some(items[|items| - 1])
  {
    if items != [] {
      LastFromIsFinal(items[1..], Some(items[0]));
    }
  }

  /** `last()` is `None` exactly for an empty iterator, and otherwise its final item. */
  lemma LastItemIsFinal<T>(items: seq<T>)
    ensures LastItem(items) == if items == [] then None else Some(items[|items| - 1])
  {
    LastFromIsFinal(items, None);
  }
}
