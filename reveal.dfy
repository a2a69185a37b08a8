/**
 * Scroll reveal (app.js, lines 104-128): every `.reveal` item gets the class
 * `in-view` on its first intersecting observer entry and is then unobserved;
 * without IntersectionObserver every item is marked at once. Item k of the
 * page's `.reveal` list is index k of the two arrays; observer geometry is
 * abstracted into each entry's `isIntersecting` flag.
 */
module Reveal {

  /** An IntersectionObserver entry: the index of its target item and whether it intersects. */
  datatype Entry = Entry(target: nat, isIntersecting: bool)

  /** Some entry of the batch reports item k as intersecting. */
  predicate Hit(entries: seq<Entry>, k: nat)
  {
    exists j :: 0 <= j < |entries| && entries[j].target == k && entries[j].isIntersecting
  }

  /** A batch with one more entry hits exactly what the shorter batch hits, plus that entry's target if it intersects. */
  lemma HitExtend(entries: seq<Entry>, n: nat, k: nat)
    requires n < |entries|
    ensures Hit(entries[..n + 1], k) <==> Hit(entries[..n], k) || (entries[n].target == k && entries[n].isIntersecting)
  {
    var longer, shorter := entries[..n + 1], entries[..n];
    if Hit(longer, k) && !(entries[n].target == k && entries[n].isIntersecting) {
      var j :| 0 <= j < |longer| && longer[j].target == k && longer[j].isIntersecting;
      assert j < n && shorter[j] == longer[j];
    }
    if Hit(shorter, k) {
      var j :| 0 <= j < |shorter| && shorter[j].target == k && shorter[j].isIntersecting;
      assert longer[j] == shorter[j];
    }
    if entries[n].target == k && entries[n].isIntersecting {
      assert longer[n] == entries[n];
    }
  }

  /** Every target of the batch is one of `n` items. */
  predicate InRange(entries: seq<Entry>, n: nat)
  {
    forall j :: 0 <= j < |entries| ==> entries[j].target < n
  }

  /** Hitting with the whole batch is hitting with all but its last entry, or with that entry. */
  lemma HitLast(entries: seq<Entry>)
    requires entries != []
    ensures var n := |entries| - 1;
      forall k: nat :: Hit(entries, k) <==> Hit(entries[..n], k) || (entries[n].target == k && entries[n].isIntersecting)
  {
    var n := |entries| - 1;
    assert entries[..n + 1] == entries;
    forall k: nat {
      HitExtend(entries, n, k);
    }
  }

  /** The markers of the `.reveal` items, as values: `in-view` classes and observation. */
  datatype Items = Items(inView: seq<bool>, observed: seq<bool>)

  /** The callback's work on one entry. */
  function AfterEntry(items: Items, e: Entry): (r: Items)
    requires |items.inView| == |items.observed| && e.target < |items.inView|
    ensures |r.inView| == |items.inView| && |r.observed| == |items.observed|
    ensures r.inView[e.target] == (items.inView[e.target] || e.isIntersecting)
    ensures r.observed[e.target] == (items.observed[e.target] && !e.isIntersecting)
    ensures forall k :: 0 <= k < |r.inView| && k != e.target ==> r.inView[k] == items.inView[k] && r.observed[k] == items.observed[k]
  {
    if e.isIntersecting then
      Items(items.inView[e.target := true], items.observed[e.target := false])
    else
      items
  }

  /**
   * The callback on one batch, entry by entry: an item is marked exactly when it
   * was marked or some entry hit it, and stays observed exactly when it was
   * observed and no entry hit it.
   */
  function AfterBatch(items: Items, entries: seq<Entry>): (r: Items)
    requires |items.inView| == |items.observed| && InRange(entries, |items.inView|)
    ensures |r.inView| == |items.inView| && |r.observed| == |items.observed|
    ensures forall k :: 0 <= k < |r.inView| ==> r.inView[k] == (items.inView[k] || Hit(entries, k))
    ensures forall k :: 0 <= k < |r.observed| ==> r.observed[k] == (items.observed[k] && !Hit(entries, k))
    decreases |entries|
  {
    if entries == [] then items
    else
      var n := |entries| - 1;
      HitLast(entries);
      AfterEntry(AfterBatch(items, entries[..n]), entries[n])
  }

  /** A batch hits an item exactly when one of its two halves does. */
  lemma HitAppend(a: seq<Entry>, b: seq<Entry>)
    ensures forall k: nat :: Hit(a + b, k) <==> Hit(a, k) || Hit(b, k)
  {
    forall k: nat
      ensures Hit(a + b, k) <==> Hit(a, k) || Hit(b, k)
    {
      if Hit(a + b, k) {
        var j :| 0 <= j < |a + b| && (a + b)[j].target == k && (a + b)[j].isIntersecting;
        if j >= |a| {
          assert b[j - |a|] == (a + b)[j];
        }
      }
      if Hit(a, k) {
        var j :| 0 <= j < |a| && a[j].target == k && a[j].isIntersecting;
        assert (a + b)[j] == a[j];
      }
      if Hit(b, k) {
        var j :| 0 <= j < |b| && b[j].target == k && b[j].isIntersecting;
        assert (a + b)[|a| + j] == b[j];
      }
    }
  }

  /** The order of the entries in a batch does not matter. */
  lemma BatchOrderIrrelevant(items: Items, a: seq<Entry>, b: seq<Entry>)
    requires |items.inView| == |items.observed| && InRange(a + b, |items.inView|)
    ensures InRange(b + a, |items.inView|)
    ensures AfterBatch(items, a + b) == AfterBatch(items, b + a)
  {
    forall j | 0 <= j < |b + a|
      ensures (b + a)[j].target < |items.inView|
    {
      if j < |b| {
        assert (b + a)[j] == (a + b)[|a| + j];
      } else {
        assert (b + a)[j] == (a + b)[j - |b|];
      }
    }
    HitAppend(a, b);
    HitAppend(b, a);
    var r, s := AfterBatch(items, a + b), AfterBatch(items, b + a);
    assert r.inView == s.inView;
    assert r.observed == s.observed;
  }

  /** Items not yet revealed stay observed: a batch keeps every unmarked item under observation. */
  lemma UnrevealedStayObserved(items: Items, entries: seq<Entry>)
    requires |items.inView| == |items.observed| && InRange(entries, |items.inView|)
    requires forall k :: 0 <= k < |items.inView| && !items.inView[k] ==> items.observed[k]
    ensures var r := AfterBatch(items, entries);
      forall k :: 0 <= k < |r.inView| && !r.inView[k] ==> r.observed[k]
  {
  }

  /** The `.reveal` items' markers, updated in place by `setupReveal` and the observer callback. */
  class RevealItems {
    const inView: array<bool>    // item k carries the class in-view
    const observed: array<bool>  // item k is observed by the IntersectionObserver
    const hasObserver: bool      // 'IntersectionObserver' in window
    var observing: bool          // an IntersectionObserver has been created

    ghost predicate Valid()
      reads this
    {
      inView.Length == observed.Length && inView != observed
    }

    /** The page as loaded: `marked` says which items already carry `in-view`; nothing is observed yet. */
    constructor (marked: seq<bool>, hasObserver: bool)
      ensures Valid() && fresh(inView) && fresh(observed)
      ensures inView[..] == marked && this.hasObserver == hasObserver && !observing
      ensures forall k :: 0 <= k < observed.Length ==> !observed[k]
    {
      inView := new bool[|marked|](k requires 0 <= k < |marked| => marked[k]);
      observed := new bool[|marked|](k => false);
      this.hasObserver := hasObserver;
      observing := false;
    }

    /** `setupReveal()`. */
    method Setup()
      requires Valid()
      modifies this`observing, inView, observed
      ensures Valid()
      ensures inView.Length == 0 ==> observing == old(observing)
      ensures inView.Length > 0 && !hasObserver ==>
        (forall k :: 0 <= k < inView.Length ==> inView[k]) && observed[..] == old(observed[..]) && observing == old(observing)
      ensures inView.Length > 0 && hasObserver ==>
        inView[..] == old(inView[..]) && (forall k :: 0 <= k < observed.Length ==> observed[k]) && observing
    {
      if inView.Length == 0 {
        return;
      }
      if !hasObserver {
        var i := 0;
        while i < inView.Length
          invariant 0 <= i <= inView.Length
          invariant forall k :: 0 <= k < i ==> inView[k]
          invariant observed[..] == old(observed[..]) && observing == old(observing)
        {
          inView[i] := true;
          i := i + 1;
        }
        return;
      }
      observing := true;
      var i := 0;
      while i < observed.Length
        invariant 0 <= i <= observed.Length
        invariant forall k :: 0 <= k < i ==> observed[k]
        invariant inView[..] == old(inView[..]) && observing
      {
        observed[i] := true;
        i := i + 1;
      }
    }

    /**
     * The observer callback on one batch of entries: an intersecting entry marks
     * its item and unobserves it; other entries change nothing. No item is ever unmarked.
     */
    method OnIntersection(entries: seq<Entry>)
      requires Valid() && observing
      requires forall j :: 0 <= j < |entries| ==> entries[j].target < inView.Length
      modifies inView, observed
      ensures Items(inView[..], observed[..]) == AfterBatch(Items(old(inView[..]), old(observed[..])), entries)
      ensures forall k :: 0 <= k < inView.Length ==> inView[k] == (old(inView[k]) || Hit(entries, k))
      ensures forall k :: 0 <= k < observed.Length ==> observed[k] == (old(observed[k]) && !Hit(entries, k))
    {
      var n := 0;
      while n < |entries|
        invariant 0 <= n <= |entries|
        invariant forall k :: 0 <= k < inView.Length ==> inView[k] == (old(inView[k]) || Hit(entries[..n], k))
        invariant forall k :: 0 <= k < observed.Length ==> observed[k] == (old(observed[k]) && !Hit(entries[..n], k))
      {
        var entry := entries[n];
        if entry.isIntersecting {
          inView[entry.target] := true;
          observed[entry.target] := false;
        }
        forall k | 0 <= k < inView.Length {
          HitExtend(entries, n, k);
        }
        n := n + 1;
      }
      assert entries[..n] == entries;
      ghost var spec := AfterBatch(Items(old(inView[..]), old(observed[..])), entries);
      assert inView[..] == spec.inView;
      assert observed[..] == spec.observed;
    }
  }
}
