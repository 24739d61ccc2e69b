/**
 * The lazy-deletion frontier of internal/graph/priority_queue.go: a binary
 * min-heap of (vertex, distance) items ordered by distance alone. Duplicate
 * entries for one vertex are allowed; the engine discards stale ones when it
 * pops them. The heap maintenance that Go's container/heap performs (`up` and
 * `down`) is written out here as `Up` and `Down`, driven only through `Less`
 * and `Swap` as container/heap drives the Go type.
 */
module Queues {
  import opened Wrappers

  /** A queue entry as the engine sees it. */
  datatype Entry = Entry(vertex: string, distance: int)

  /** A heap slot: the entry and its position in the slice (-1 once popped). */
  datatype Item = Item(vertex: string, distance: int, index: int)
  {
    function Key(): Entry
    {
      Entry(vertex, distance)
    }
  }

  function Keys(items: seq<Item>): (r: seq<Entry>)
    ensures |r| == |items|
    ensures forall k {:trigger r[k]} :: 0 <= k < |items| ==> r[k] == items[k].Key()
  {
    seq(|items|, k requires 0 <= k < |items| => items[k].Key())
  }

  /** The entries of a slice, with multiplicities. */
  ghost function Bag(items: seq<Item>): (b: multiset<Entry>)
    ensures |b| == |items|
  {
    if items == [] then multiset{} else Bag(items[..|items| - 1]) + multiset{items[|items| - 1].Key()}
  }

  lemma {:induction false} BagIsMultiset(items: seq<Item>)
    ensures Bag(items) == multiset(Keys(items))
  {
    if items != [] {
      var n := |items| - 1;
      BagIsMultiset(items[..n]);
      assert Keys(items) == Keys(items[..n]) + [items[n].Key()];
    }
  }

  /** Exchanging two slots (and renumbering them) keeps the entries held. */
  lemma BagSwap(s: seq<Item>, t: seq<Item>, i: nat, j: nat)
    requires i < |s| && j < |s| && |t| == |s|
    requires t[i].Key() == s[j].Key() && t[j].Key() == s[i].Key()
    requires forall k :: 0 <= k < |s| && k != i && k != j ==> t[k] == s[k]
    ensures Bag(t) == Bag(s)
  {
    var ks := Keys(s);
    assert Keys(t) == ks[i := ks[j]][j := ks[i]];
    BagIsMultiset(s);
    BagIsMultiset(t);
  }

  /** Heap order on the first n slots: slot k's children are 2k+1 and 2k+2, and no child is smaller than its parent. */
  ghost predicate HeapOrdered(s: seq<Item>, n: nat)
    requires n <= |s|
  {
    forall p, k {:trigger s[p], s[k]} :: 0 <= p < k < n && (k == 2 * p + 1 || k == 2 * p + 2) ==>
      s[p].distance <= s[k].distance
  }

  /** The root of a heap holds a least distance. */
  lemma {:induction false} RootIsMinimum(s: seq<Item>, n: nat, k: nat)
    requires n <= |s| && HeapOrdered(s, n) && k < n
    ensures s[0].distance <= s[k].distance
  {
    if k > 0 {
      var p := (k - 1) / 2;
      RootIsMinimum(s, n, p);
      assert s[p].distance <= s[k].distance;
    }
  }

  /** Every entry held by a non-empty heap is at least as far as its root. */
  lemma RootBoundsBag(s: seq<Item>)
    requires |s| > 0 && HeapOrdered(s, |s|)
    ensures forall e :: e in Bag(s) ==> s[0].distance <= e.distance
  {
    BagIsMultiset(s);
    forall e | e in Bag(s)
      ensures s[0].distance <= e.distance
    {
      var k :| 0 <= k < |s| && Keys(s)[k] == e;
      RootIsMinimum(s, |s|, k);
    }
  }

  /** Heap order on the first n slots, except possibly between slot i and its parent. */
  ghost predicate ParentsOrderedExcept(s: seq<Item>, n: nat, i: nat)
    requires n <= |s|
  {
    forall p, k {:trigger s[p], s[k]} :: 0 <= p < k < n && (k == 2 * p + 1 || k == 2 * p + 2) && k != i ==>
      s[p].distance <= s[k].distance
  }

  /** When slot i is no smaller than its parent, the whole prefix is a heap again. */
  lemma UpDone(s: seq<Item>, n: nat, i: nat)
    requires n <= |s| && i < n
    requires ParentsOrderedExcept(s, n, i)
    requires i > 0 ==> s[(i - 1) / 2].distance <= s[i].distance
    ensures HeapOrdered(s, n)
  {
  }

  /** Heap order on the first n slots, except possibly between slot i and its children. */
  ghost predicate ParentsOrderedBelow(s: seq<Item>, n: nat, i: nat)
    requires n <= |s|
  {
    forall p, k {:trigger s[p], s[k]} :: 0 <= p < k < n && (k == 2 * p + 1 || k == 2 * p + 2) && p != i ==>
      s[p].distance <= s[k].distance
  }

  /** The parent of slot i is no larger than the children of slot i. */
  ghost predicate GrandparentBound(s: seq<Item>, n: nat, i: nat)
    requires n <= |s| && i < n
  {
    i > 0 ==> forall k {:trigger s[k]} :: 0 < k < n && (k == 2 * i + 1 || k == 2 * i + 2) ==>
      s[(i - 1) / 2].distance <= s[k].distance
  }

  /** One round of `Up`: swapping slot i with its larger parent moves the only possible violation up to the parent. */
  lemma UpStep(s: seq<Item>, t: seq<Item>, n: nat, i: nat)
    requires n <= |s| == |t| && 0 < i < n
    requires ParentsOrderedExcept(s, n, i) && GrandparentBound(s, n, i)
    requires s[i].distance < s[(i - 1) / 2].distance
    requires t[(i - 1) / 2].distance == s[i].distance && t[i].distance == s[(i - 1) / 2].distance
    requires forall k :: 0 <= k < n && k != i && k != (i - 1) / 2 ==> t[k].distance == s[k].distance
    ensures ParentsOrderedExcept(t, n, (i - 1) / 2) && GrandparentBound(t, n, (i - 1) / 2)
  {
    var g := (i - 1) / 2;
    forall q, k | 0 <= q < k < n && (k == 2 * q + 1 || k == 2 * q + 2) && k != g
      ensures t[q].distance <= t[k].distance
    {
      if k == i {
      } else if q == i {
        assert s[g].distance <= s[k].distance;
      } else if q == g {
        assert s[g].distance <= s[k].distance;
      } else {
        assert s[q].distance <= s[k].distance;
      }
    }
    if g > 0 {
      forall k | 0 < k < n && (k == 2 * g + 1 || k == 2 * g + 2)
        ensures t[(g - 1) / 2].distance <= t[k].distance
      {
        assert s[(g - 1) / 2].distance <= s[g].distance;
        if k != i {
          assert s[g].distance <= s[k].distance;
        }
      }
    }
  }

  /** One round of `Down`: swapping slot i with its smallest child c, smaller than slot i, moves the only possible violation down to c. */
  lemma DownStep(s: seq<Item>, t: seq<Item>, n: nat, i: nat, c: nat)
    requires n <= |s| == |t| && i < c < n && (c == 2 * i + 1 || c == 2 * i + 2)
    requires ParentsOrderedBelow(s, n, i) && GrandparentBound(s, n, i)
    requires s[c].distance <= s[2 * i + 1].distance
    requires 2 * i + 2 < n ==> s[c].distance <= s[2 * i + 2].distance
    requires s[c].distance < s[i].distance
    requires t[i].distance == s[c].distance && t[c].distance == s[i].distance
    requires forall k :: 0 <= k < n && k != i && k != c ==> t[k].distance == s[k].distance
    ensures ParentsOrderedBelow(t, n, c) && GrandparentBound(t, n, c)
  {
    forall q, k | 0 <= q < k < n && (k == 2 * q + 1 || k == 2 * q + 2) && q != c
      ensures t[q].distance <= t[k].distance
    {
      if k == i {
        assert s[(i - 1) / 2].distance <= s[c].distance;
      } else if k == c {
      } else if q == i {
        assert s[c].distance <= s[k].distance;
      } else {
        assert s[q].distance <= s[k].distance;
      }
    }
    forall k | 0 < k < n && (k == 2 * c + 1 || k == 2 * c + 2)
      ensures t[(c - 1) / 2].distance <= t[k].distance
    {
      assert s[c].distance <= s[k].distance;
    }
  }

  /** With no smaller child left, the slot no longer needs sifting. */
  lemma DownDone(s: seq<Item>, n: nat, i: nat)
    requires n <= |s| && i < n
    requires ParentsOrderedBelow(s, n, i)
    requires 2 * i + 1 < n ==> s[i].distance <= s[2 * i + 1].distance
    requires 2 * i + 2 < n ==> s[i].distance <= s[2 * i + 2].distance
    ensures HeapOrdered(s, n)
  {
  }

  class PriorityQueue {
    var items: seq<Item>

    /** Each item records its own slot, as `Swap` and `Push` maintain it. */
    ghost predicate Indexed()
      reads this
    {
      forall k :: 0 <= k < |items| ==> items[k].index == k
    }

    ghost predicate Valid()
      reads this
    {
      Indexed() && HeapOrdered(items, |items|)
    }

    /** The entries held, stale or not, with their multiplicities. */
    ghost function Contents(): multiset<Entry>
      reads this
    {
      Bag(items)
    }

    /** `NewPriorityQueue`: an empty slice; `heap.Init` has nothing to reorder. */
    constructor ()
      ensures Valid() && items == [] && Contents() == multiset{}
    {
      items := [];
    }

    function Len(): (n: nat)
      reads this
      ensures n == |Contents()|
    {
      |items|
    }

    predicate Less(i: nat, j: nat)
      reads this
      requires i < |items| && j < |items|
    {
      items[i].distance < items[j].distance
    }

    method Swap(i: nat, j: nat)
      requires i < |items| && j < |items|
      modifies this
      ensures |items| == old(|items|)
      ensures items[i] == old(items[j]).(index := i) && items[j] == old(items[i]).(index := j)
      ensures forall k :: 0 <= k < |items| && k != i && k != j ==> items[k] == old(items[k])
      ensures old(Indexed()) ==> Indexed()
      ensures Bag(items) == Bag(old(items))
    {
      var a, b := items[i], items[j];
      items := items[i := b][j := a];
      items := items[i := items[i].(index := i)];
      items := items[j := items[j].(index := j)];
      BagSwap(old(items), items, i, j);
    }

    /** The `heap.Interface` Push: the item takes the next slot at the end. */
    method Push(x: Item)
      modifies this
      ensures items == old(items) + [x.(index := |old(items)|)]
      ensures old(Indexed()) ==> Indexed()
      ensures Bag(items) == Bag(old(items)) + multiset{x.Key()}
    {
      var n := |items|;
      var item := x.(index := n);
      items := items + [item];
      assert items[..|items| - 1] == old(items);
    }

    /** The `heap.Interface` Pop: the last item leaves, marked with index -1. */
    method Pop() returns (x: Item)
      requires |items| > 0
      modifies this
      ensures items == old(items)[..|old(items)| - 1]
      ensures x == old(items)[|old(items)| - 1].(index := -1)
      ensures old(Indexed()) ==> Indexed()
      ensures Bag(items) == Bag(old(items)) - multiset{x.Key()}
    {
      var n := |items|;
      x := items[n - 1];
      x := x.(index := -1);
      items := items[..n - 1];
    }

    /** Sifts slot `j` up towards the root until its parent is no larger. */
    method Up(j: nat)
      requires Indexed() && j < |items|
      requires ParentsOrderedExcept(items, |items|, j) && GrandparentBound(items, |items|, j)
      modifies this
      ensures Valid() && |items| == old(|items|) && Bag(items) == Bag(old(items))
    {
      var i: nat := j;
      while i > 0 && Less(i, (i - 1) / 2)
        invariant Indexed() && i < |items| && |items| == old(|items|)
        invariant Bag(items) == Bag(old(items))
        invariant ParentsOrderedExcept(items, |items|, i) && GrandparentBound(items, |items|, i)
        decreases i
      {
        var parent := (i - 1) / 2;
        ghost var before := items;
        Swap(parent, i);
        UpStep(before, items, |items|, i);
        i := parent;
      }
      UpDone(items, |items|, i);
    }

    /**
     * One round of container/heap's `down` loop at slot i: stop when i has no
     * child within the first n slots or no child smaller than it; otherwise swap
     * i with its smaller child and continue from that child.
     */
    method DownRound(i: nat, n: nat) returns (next: nat, done: bool)
      requires Indexed() && i < n <= |items|
      requires ParentsOrderedBelow(items, n, i) && GrandparentBound(items, n, i)
      modifies this
      ensures |items| == old(|items|) && Indexed() && Bag(items) == Bag(old(items))
      ensures forall k :: n <= k < |items| ==> items[k] == old(items[k])
      ensures done ==> HeapOrdered(items, n)
      ensures !done ==> i < next < n && ParentsOrderedBelow(items, n, next) && GrandparentBound(items, n, next)
    {
      var left := 2 * i + 1;
      if left >= n {
        DownDone(items, n, i);
        return i, true;
      }
      var child := left;
      if left + 1 < n && Less(left + 1, left) {
        child := left + 1;
      }
      if !Less(child, i) {
        DownDone(items, n, i);
        return i, true;
      }
      SwapDown(i, child, n);
      return child, false;
    }

    /** The swap of a `down` round: slot i trades places with its smaller child c, which is smaller than it. */
    method SwapDown(i: nat, c: nat, n: nat)
      requires Indexed() && n <= |items| && i < c < n && (c == 2 * i + 1 || c == 2 * i + 2)
      requires ParentsOrderedBelow(items, n, i) && GrandparentBound(items, n, i)
      requires items[c].distance <= items[2 * i + 1].distance
      requires 2 * i + 2 < n ==> items[c].distance <= items[2 * i + 2].distance
      requires items[c].distance < items[i].distance
      modifies this
      ensures |items| == old(|items|) && Indexed() && Bag(items) == Bag(old(items))
      ensures forall k :: n <= k < |items| ==> items[k] == old(items[k])
      ensures ParentsOrderedBelow(items, n, c) && GrandparentBound(items, n, c)
    {
      ghost var before := items;
      Swap(i, c);
      DownStep(before, items, n, i, c);
    }

    /** Sifts slot `i0` down within the first `n` slots until no child is smaller. */
    method Down(i0: nat, n: nat)
      requires Indexed() && i0 < n <= |items|
      requires ParentsOrderedBelow(items, n, i0) && GrandparentBound(items, n, i0)
      modifies this
      ensures |items| == old(|items|) && Indexed() && HeapOrdered(items, n)
      ensures Bag(items) == Bag(old(items))
      ensures forall k :: n <= k < |items| ==> items[k] == old(items[k])
    {
      var i: nat := i0;
      while true
        invariant Indexed() && i < n && |items| == old(|items|)
        invariant Bag(items) == Bag(old(items))
        invariant forall k :: n <= k < |items| ==> items[k] == old(items[k])
        invariant ParentsOrderedBelow(items, n, i) && GrandparentBound(items, n, i)
        decreases n - i
      {
        var next, done := DownRound(i, n);
        if done {
          break;
        }
        i := next;
      }
    }

    /** `heap.Push`: append at the end, then sift up. */
    method Insert(vertex: string, distance: int)
      requires Valid()
      modifies this
      ensures Valid()
      ensures Contents() == old(Contents()) + multiset{Entry(vertex, distance)}
    {
      var item := Item(vertex, distance, 0);
      Push(item);
      Up(|items| - 1);
    }

    /**
     * `heap.Pop`: swap the root to the end, restore the heap on the rest, and
     * pop the end. An empty queue yields `None` (Go's nil) and is left alone.
     */
    method ExtractMin() returns (r: Option<Item>)
      requires Valid()
      modifies this
      ensures Valid()
      ensures r.None? <==> old(Contents()) == multiset{}
      ensures r.None? ==> items == old(items)
      ensures r.Some? ==>
        && r.value.index == -1
        && r.value.Key() in old(Contents())
        && Contents() == old(Contents()) - multiset{r.value.Key()}
        && forall e :: e in Contents() ==> r.value.distance <= e.distance
    {
      if Len() == 0 {
        return None;
      }
      RootBoundsBag(items);
      var n := Len() - 1;
      Swap(0, n);
      if n > 0 {
        Down(0, n);
      }
      ghost var before := items;
      var x := Pop();
      assert before[..n] == items;
      r := Some(x);
    }

    function IsEmpty(): (b: bool)
      reads this
      ensures b <==> Contents() == multiset{}
    {
      Len() == 0
    }
  }
}
