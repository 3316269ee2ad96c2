/**
 * The rating index (main.py:91-146): an array-backed binary max-heap of foods
 * ordered by `rating`, rebuilt for every "top rated in cuisine" query.
 * The slot of a node's parent is (i - 1) / 2, its children 2i + 1 and 2i + 2.
 */
module Heap {
  import opened Wrappers
  import opened Entities

  /** Every parent is rated at least as high as each of its children. */
  ghost predicate IsMaxHeap(h: seq<Food>) {
    forall p, c {:trigger h[p], h[c]} :: 0 <= p < c < |h| && p == (c - 1) / 2 ==> h[p].rating >= h[c].rating
  }

  /** The heap property everywhere except between slot k and its parent; k's parent still dominates k's children. */
  ghost predicate HeapExceptUp(h: seq<Food>, k: nat) {
    && (forall p, c {:trigger h[p], h[c]} :: 0 <= p < c < |h| && p == (c - 1) / 2 && c != k ==> h[p].rating >= h[c].rating)
    && (0 < k < |h| ==> forall c :: 0 < c < |h| && (c - 1) / 2 == k ==> h[(k - 1) / 2].rating >= h[c].rating)
  }

  /** The heap property everywhere except between slot k and its children; k's parent still dominates k's children. */
  ghost predicate HeapExceptDown(h: seq<Food>, k: nat) {
    && (forall p, c {:trigger h[p], h[c]} :: 0 <= p < c < |h| && p == (c - 1) / 2 && p != k ==> h[p].rating >= h[c].rating)
    && (0 < k < |h| ==> forall c :: 0 < c < |h| && (c - 1) / 2 == k ==> h[(k - 1) / 2].rating >= h[c].rating)
  }

  function Swap(h: seq<Food>, i: nat, j: nat): (r: seq<Food>)
    requires i < |h| && j < |h|
    ensures |r| == |h| && r[i] == h[j] && r[j] == h[i]
    ensures forall k :: 0 <= k < |h| && k != i && k != j ==> r[k] == h[k]
  {
    h[i := h[j]][j := h[i]]
  }

  lemma SwapPermutes(h: seq<Food>, i: nat, j: nat)
    requires i < |h| && j < |h|
    ensures multiset(Swap(h, i, j)) == multiset(h)
  {
  }

  /** The root of a max-heap is rated at least as high as every slot. */
  lemma {:induction false} RootDominates(h: seq<Food>, i: nat)
    requires IsMaxHeap(h) && i < |h|
    ensures h[0].rating >= h[i].rating
    decreases i
  {
    if i > 0 {
      RootDominates(h, (i - 1) / 2);
      assert h[(i - 1) / 2].rating >= h[i].rating;
    }
  }

  /** Hence no dish in a non-empty max-heap outranks its root. */
  lemma RootIsMaximal(h: seq<Food>)
    requires IsMaxHeap(h) && |h| > 0
    ensures forall x :: x in h ==> h[0].rating >= x.rating
  {
    forall x | x in h
      ensures h[0].rating >= x.rating
    {
      var i :| 0 <= i < |h| && h[i] == x;
      RootDominates(h, i);
    }
  }

  /** Moving the last slot into the root loses exactly the root. */
  lemma LastToRoot(h: seq<Food>)
    requires |h| > 1
    ensures multiset(h[..|h| - 1][0 := h[|h| - 1]]) + multiset{h[0]} == multiset(h)
  {
    var mid := h[1..|h| - 1];
    assert h == [h[0]] + mid + [h[|h| - 1]];
    assert h[..|h| - 1][0 := h[|h| - 1]] == [h[|h| - 1]] + mid;
  }

  /** One sift-up swap moves the exception from slot i to its parent. */
  lemma SiftUpStep(h: seq<Food>, i: nat)
    requires 0 < i < |h| && HeapExceptUp(h, i)
    requires h[i].rating > h[(i - 1) / 2].rating
    ensures HeapExceptUp(Swap(h, i, (i - 1) / 2), (i - 1) / 2)
  {
    SiftUpStepBelow(h, i);
    SiftUpStepAbove(h, i);
  }

  /** After the sift-up swap every edge but the one into the parent slot is ordered. */
  lemma SiftUpStepBelow(h: seq<Food>, i: nat)
    requires 0 < i < |h| && HeapExceptUp(h, i)
    requires h[i].rating > h[(i - 1) / 2].rating
    ensures var s := Swap(h, i, (i - 1) / 2);
      forall q, j {:trigger s[q], s[j]} :: 0 <= q < j < |s| && q == (j - 1) / 2 && j != (i - 1) / 2 ==> s[q].rating >= s[j].rating
  {
    var p := (i - 1) / 2;
    var s := Swap(h, i, p);
    forall q, j | 0 <= q < j < |s| && q == (j - 1) / 2 && j != p
      ensures s[q].rating >= s[j].rating
    {
      if j == i {
        assert s[q] == h[i] && s[j] == h[p];
      } else if q == i {
        assert s[q] == h[p] && s[j] == h[j];
        assert h[p].rating >= h[j].rating;
      } else if q == p {
        assert s[q] == h[i] && s[j] == h[j];
        assert h[p].rating >= h[j].rating;
      } else {
        assert s[j] == h[j] && s[q] == h[q];
      }
    }
  }

  /** After the sift-up swap the grandparent slot still dominates the new children of the parent slot. */
  lemma SiftUpStepAbove(h: seq<Food>, i: nat)
    requires 0 < i < |h| && HeapExceptUp(h, i)
    requires h[i].rating > h[(i - 1) / 2].rating
    ensures var p := (i - 1) / 2; var s := Swap(h, i, p);
      0 < p ==> forall j :: 0 < j < |s| && (j - 1) / 2 == p ==> s[(p - 1) / 2].rating >= s[j].rating
  {
    var p := (i - 1) / 2;
    var s := Swap(h, i, p);
    if 0 < p {
      var pp := (p - 1) / 2;
      assert pp < p < i;
      assert s[pp] == h[pp];
      assert h[pp].rating >= h[p].rating;
      forall j | 0 < j < |s| && (j - 1) / 2 == p
        ensures s[pp].rating >= s[j].rating
      {
        if j == i {
          assert s[j] == h[p];
        } else {
          assert s[j] == h[j];
          assert h[p].rating >= h[j].rating;
        }
      }
    }
  }

  /** One sift-down swap with the higher-rated child moves the exception from slot i to that child. */
  lemma SiftDownStep(h: seq<Food>, i: nat, c: nat)
    requires c < |h| && (c - 1) / 2 == i && 0 < c && HeapExceptDown(h, i)
    requires forall j :: 0 < j < |h| && (j - 1) / 2 == i ==> h[c].rating >= h[j].rating
    requires h[i].rating < h[c].rating
    ensures HeapExceptDown(Swap(h, i, c), c)
  {
    var s := Swap(h, i, c);
    forall q, j | 0 <= q < j < |s| && q == (j - 1) / 2 && q != c
      ensures s[q].rating >= s[j].rating
    {
      if j == c {
      } else if q == i {
        assert s[j] == h[j];
      } else if j == i {
        assert h[q].rating >= h[c].rating;
      } else {
        assert s[j] == h[j] && s[q] == h[q];
      }
    }
    forall j | 0 < j < |s| && (j - 1) / 2 == c
      ensures s[(c - 1) / 2].rating >= s[j].rating
    {
      assert s[j] == h[j];
      assert h[c].rating >= h[j].rating;
    }
  }

  /** The child chosen by comparing the left child with the right one outranks every child of slot i. */
  lemma HigherChild(h: seq<Food>, i: nat, child: nat)
    requires child < |h|
    requires child == 2 * i + 1 || (child == 2 * i + 2 && h[child].rating > h[child - 1].rating)
    requires child == 2 * i + 1 ==> child + 1 >= |h| || h[child + 1].rating <= h[child].rating
    ensures forall j :: 0 < j < |h| && (j - 1) / 2 == i ==> h[child].rating >= h[j].rating
  {
    forall j | 0 < j < |h| && (j - 1) / 2 == i
      ensures h[child].rating >= h[j].rating
    {
      assert j == 2 * i + 1 || j == 2 * i + 2;
    }
  }

  /** A slot without children cannot break the heap property: sifting down ends there. */
  lemma SiftDownLeaf(h: seq<Food>, i: nat)
    requires i < |h| && 2 * i + 1 >= |h| && HeapExceptDown(h, i)
    ensures IsMaxHeap(h)
  {
    forall j | 0 < j < |h|
      ensures (j - 1) / 2 != i || h[i].rating >= h[j].rating
    {
      assert j - 1 < 2 * i;
    }
    SiftDownDone(h, i);
  }

  /** With the higher-rated child chosen and outranking slot i, the swap moves the exception down to it. */
  lemma SiftDownSwap(h: seq<Food>, i: nat, child: nat)
    requires i < |h| && child < |h|
    requires child == 2 * i + 1 || (child == 2 * i + 2 && h[child].rating > h[child - 1].rating)
    requires child == 2 * i + 1 ==> child + 1 >= |h| || h[child + 1].rating <= h[child].rating
    requires HeapExceptDown(h, i) && h[i].rating < h[child].rating
    ensures HeapExceptDown(Swap(h, i, child), child) && multiset(Swap(h, i, child)) == multiset(h)
  {
    HigherChild(h, i, child);
    SiftDownStep(h, i, child);
    SwapPermutes(h, i, child);
  }

  /** With the higher-rated child chosen and not outranking slot i, the heap is whole. */
  lemma SiftDownStop(h: seq<Food>, i: nat, child: nat)
    requires i < |h| && child < |h|
    requires child == 2 * i + 1 || (child == 2 * i + 2 && h[child].rating > h[child - 1].rating)
    requires child == 2 * i + 1 ==> child + 1 >= |h| || h[child + 1].rating <= h[child].rating
    requires HeapExceptDown(h, i) && h[i].rating >= h[child].rating
    ensures IsMaxHeap(h)
  {
    HigherChild(h, i, child);
    SiftDownDone(h, i);
  }


  /** Sifting down stops with a max-heap once slot i outranks each of its children (or has none). */
  lemma SiftDownDone(h: seq<Food>, i: nat)
    requires i < |h| && HeapExceptDown(h, i)
    requires forall j :: 0 < j < |h| && (j - 1) / 2 == i ==> h[i].rating >= h[j].rating
    ensures IsMaxHeap(h)
  {
  }

  /**
   * The sift-down loop as main.py:133-146 writes it: `child_index` is set once,
   * before the loop, and is never recomputed from the new `index` after a swap.
   * From the second round on it can only step one slot to the right, so the
   * dish is compared with a sibling or cousin, never with its own children.
   */
  function HeapifyDownAsWritten(h: seq<Food>, index: nat, child: nat): (r: seq<Food>)
    requires index < |h|
    ensures |r| == |h|
    decreases |h| - child, if index == child then 0 else 1
  {
    if child >= |h| then h
    else
      var c := if child + 1 < |h| && h[child + 1].rating > h[child].rating then child + 1 else child;
      if h[index].rating < h[c].rating then HeapifyDownAsWritten(Swap(h, index, c), c, c)
      else h
  }

  /** `MaxHeap.pop` (main.py:107-121) with that sift-down: the removed root and the remaining slots. */
  function PopAsWritten(h: seq<Food>): (r: (Option<Food>, seq<Food>))
    ensures h == [] ==> r == (None, [])
    ensures h != [] ==> r.0 == Some(h[0]) && |r.1| == |h| - 1
  {
    if h == [] then (None, [])
    else if |h| == 1 then (Some(h[0]), [])
    else (Some(h[0]), HeapifyDownAsWritten(h[..|h| - 1][0 := h[|h| - 1]], 0, 1))
  }

  /** The ratings of the dishes popped one after another until the heap is empty. */
  function DrainAsWritten(h: seq<Food>): (ratings: seq<int>)
    ensures |ratings| == |h|
    decreases |h|
  {
    if h == [] then [] else [h[0].rating] + DrainAsWritten(PopAsWritten(h).1)
  }

  /** Sifting down as written only swaps slots: the heap keeps the same dishes. */
  lemma {:induction false} HeapifyDownAsWrittenPermutes(h: seq<Food>, index: nat, child: nat)
    requires index < |h|
    ensures multiset(HeapifyDownAsWritten(h, index, child)) == multiset(h)
    decreases |h| - child, if index == child then 0 else 1
  {
    if child < |h| {
      var c := if child + 1 < |h| && h[child + 1].rating > h[child].rating then child + 1 else child;
      if h[index].rating < h[c].rating {
        SwapPermutes(h, index, c);
        HeapifyDownAsWrittenPermutes(Swap(h, index, c), c, c);
      }
    }
  }

  /** A pop as written removes exactly the root: the remaining slots hold every other dish. */
  lemma PopAsWrittenPermutes(h: seq<Food>)
    requires h != []
    ensures multiset(PopAsWritten(h).1) + multiset{h[0]} == multiset(h)
  {
    if |h| > 1 {
      LastToRoot(h);
      HeapifyDownAsWrittenPermutes(h[..|h| - 1][0 := h[|h| - 1]], 0, 1);
    } else {
      assert h == [h[0]];
    }
  }

  /** The ratings of the slots, slot by slot. */
  function RatingsOf(h: seq<Food>): (ratings: seq<int>)
    ensures |ratings| == |h| && forall i :: 0 <= i < |h| ==> ratings[i] == h[i].rating
  {
    seq(|h|, i requires 0 <= i < |h| => h[i].rating)
  }

  /** Taking slot j out of a sequence removes one copy of its element. */
  lemma RemoveSlot<T>(b: seq<T>, j: nat)
    requires j < |b|
    ensures multiset(b[..j] + b[j + 1..]) + multiset{b[j]} == multiset(b)
  {
    assert b == b[..j] + [b[j]] + b[j + 1..];
  }

  /** Taking slot j out of the heap takes its rating out of the ratings. */
  lemma RatingsRemoveSlot(b: seq<Food>, j: nat)
    requires j < |b|
    ensures multiset(RatingsOf(b[..j] + b[j + 1..])) + multiset{b[j].rating} == multiset(RatingsOf(b))
  {
    var r := RatingsOf(b);
    assert RatingsOf(b[..j] + b[j + 1..]) == r[..j] + r[j + 1..];
    RemoveSlot(r, j);
  }

  /** One copy of the same dish taken from two equal collections leaves equal collections. */
  lemma CancelOne(m: multiset<Food>, n: multiset<Food>, x: Food)
    requires m + multiset{x} == n + multiset{x}
    ensures m == n
  {
    assert forall y :: m[y] == (m + multiset{x})[y] - multiset{x}[y];
    assert forall y :: n[y] == (n + multiset{x})[y] - multiset{x}[y];
  }

  /** Two arrangements of the same dishes have the same ratings, counted with multiplicity. */
  lemma {:induction false} RatingsPermute(a: seq<Food>, b: seq<Food>)
    requires multiset(a) == multiset(b)
    ensures multiset(RatingsOf(a)) == multiset(RatingsOf(b))
    decreases |a|
  {
    if a == [] {
      assert |b| == |multiset(b)| == 0;
    } else {
      assert a[0] in multiset(b);
      var j :| 0 <= j < |b| && b[j] == a[0];
      var rest := b[..j] + b[j + 1..];
      assert a[..0] + a[1..] == a[1..];
      RemoveSlot(b, j);
      RemoveSlot(a, 0);
      CancelOne(multiset(rest), multiset(a[1..]), a[0]);
      RatingsPermute(a[1..], rest);
      RatingsRemoveSlot(b, j);
      RatingsRemoveSlot(a, 0);
    }
  }

  /** Draining as written hands out every dish's rating exactly once, whatever the order. */
  lemma {:induction false} DrainAsWrittenPermutes(h: seq<Food>)
    ensures multiset(DrainAsWritten(h)) == multiset(RatingsOf(h))
    decreases |h|
  {
    if h != [] {
      var rest := PopAsWritten(h).1;
      DrainAsWrittenPermutes(rest);
      PopAsWrittenPermutes(h);
      assert multiset(rest + [h[0]]) == multiset(h);
      RatingsPermute(rest + [h[0]], h);
      assert RatingsOf(rest + [h[0]]) == RatingsOf(rest) + [h[0].rating];
    }
  }

  /** A dish that only its rating tells apart. */
  function RatedDish(name: string, rating: int): Food {
    Food(name, "Italian", 0, 0.0, rating, "", [], "", "", 0, None)
  }

  /**
   * Nine dishes rated 5, 4, 0, 3, 0, 0, 0, 2, 1 (0 is the rating of an unrated
   * dish) form a max-heap in that order (pushing them in that order makes no
   * swap).
   */
  function SampleHeap(): seq<Food> {
    [RatedDish("a", 5), RatedDish("b", 4), RatedDish("c", 0), RatedDish("d", 3), RatedDish("e", 0),
     RatedDish("f", 0), RatedDish("g", 0), RatedDish("h", 2), RatedDish("i", 1)]
  }

  /** The first pop as written leaves the dish rated 3 below the one rated 1. */
  lemma AsWrittenFirstPop()
    ensures IsMaxHeap(SampleHeap())
    ensures PopAsWritten(SampleHeap()).1 == [RatedDish("b", 4), RatedDish("i", 1), RatedDish("c", 0), RatedDish("d", 3),
                                             RatedDish("e", 0), RatedDish("f", 0), RatedDish("g", 0), RatedDish("h", 2)]
    ensures !IsMaxHeap(PopAsWritten(SampleHeap()).1)
  {
    var h0 := SampleHeap();
    assert IsMaxHeap(h0) by {
      forall j {:trigger h0[j]} | 0 < j < |h0|
        ensures h0[(j - 1) / 2].rating >= h0[j].rating
      {
      }
    }
    var a, b, c, d, e := RatedDish("a", 5), RatedDish("b", 4), RatedDish("c", 0), RatedDish("d", 3), RatedDish("e", 0);
    var f, g, h, i := RatedDish("f", 0), RatedDish("g", 0), RatedDish("h", 2), RatedDish("i", 1);
    var h1 := [b, i, c, d, e, f, g, h];
    assert h0[..8][0 := i] == [i, b, c, d, e, f, g, h];
    assert Swap([i, b, c, d, e, f, g, h], 0, 1) == h1;
    assert HeapifyDownAsWritten(h1, 1, 1) == h1;
    assert HeapifyDownAsWritten([i, b, c, d, e, f, g, h], 0, 1) == h1;
    assert h1[(3 - 1) / 2].rating < h1[3].rating;
  }

  /** The second pop as written takes the dish rated 4 and brings up the one rated 2. */
  lemma AsWrittenSecondPop()
    ensures PopAsWritten([RatedDish("b", 4), RatedDish("i", 1), RatedDish("c", 0), RatedDish("d", 3),
                          RatedDish("e", 0), RatedDish("f", 0), RatedDish("g", 0), RatedDish("h", 2)]).1
         == [RatedDish("h", 2), RatedDish("i", 1), RatedDish("c", 0), RatedDish("d", 3),
             RatedDish("e", 0), RatedDish("f", 0), RatedDish("g", 0)]
  {
    var b, c, d, e := RatedDish("b", 4), RatedDish("c", 0), RatedDish("d", 3), RatedDish("e", 0);
    var f, g, h, i := RatedDish("f", 0), RatedDish("g", 0), RatedDish("h", 2), RatedDish("i", 1);
    var h1 := [b, i, c, d, e, f, g, h];
    assert h1[..7][0 := h] == [h, i, c, d, e, f, g];
  }

  /** The third pop as written takes the dish rated 2 although the one rated 3 is still inside. */
  lemma AsWrittenThirdPop()
    ensures PopAsWritten([RatedDish("h", 2), RatedDish("i", 1), RatedDish("c", 0), RatedDish("d", 3),
                          RatedDish("e", 0), RatedDish("f", 0), RatedDish("g", 0)]).1
         == [RatedDish("i", 1), RatedDish("g", 0), RatedDish("c", 0), RatedDish("d", 3), RatedDish("e", 0), RatedDish("f", 0)]
  {
    var c, d, e := RatedDish("c", 0), RatedDish("d", 3), RatedDish("e", 0);
    var f, g, h, i := RatedDish("f", 0), RatedDish("g", 0), RatedDish("h", 2), RatedDish("i", 1);
    var h2 := [h, i, c, d, e, f, g];
    var h3 := [i, g, c, d, e, f];
    assert h2[..6][0 := g] == [g, i, c, d, e, f];
    assert Swap([g, i, c, d, e, f], 0, 1) == h3;
    assert HeapifyDownAsWritten(h3, 1, 1) == h3;
    assert HeapifyDownAsWritten([g, i, c, d, e, f], 0, 1) == h3;
  }

  /** The next two pops as written: the dish rated 2 comes out while the one rated 3 is still inside. */
  lemma AsWrittenMiddlePops()
    ensures var h1 := [RatedDish("b", 4), RatedDish("i", 1), RatedDish("c", 0), RatedDish("d", 3),
                       RatedDish("e", 0), RatedDish("f", 0), RatedDish("g", 0), RatedDish("h", 2)];
            DrainAsWritten(h1) == [4, 2] + DrainAsWritten([RatedDish("i", 1), RatedDish("g", 0), RatedDish("c", 0),
                                                            RatedDish("d", 3), RatedDish("e", 0), RatedDish("f", 0)])
  {
    AsWrittenSecondPop();
    AsWrittenThirdPop();
  }

  /** The fourth to sixth pops as written take the dishes rated 1, 0 and 0 and leave the one rated 3 on top. */
  lemma AsWrittenLowPops()
    ensures PopAsWritten([RatedDish("i", 1), RatedDish("g", 0), RatedDish("c", 0),
                          RatedDish("d", 3), RatedDish("e", 0), RatedDish("f", 0)]).1
         == [RatedDish("f", 0), RatedDish("g", 0), RatedDish("c", 0), RatedDish("d", 3), RatedDish("e", 0)]
    ensures PopAsWritten([RatedDish("f", 0), RatedDish("g", 0), RatedDish("c", 0), RatedDish("d", 3), RatedDish("e", 0)]).1
         == [RatedDish("e", 0), RatedDish("g", 0), RatedDish("c", 0), RatedDish("d", 3)]
    ensures PopAsWritten([RatedDish("e", 0), RatedDish("g", 0), RatedDish("c", 0), RatedDish("d", 3)]).1
         == [RatedDish("d", 3), RatedDish("g", 0), RatedDish("c", 0)]
  {
    var c, d, e := RatedDish("c", 0), RatedDish("d", 3), RatedDish("e", 0);
    var f, g, i := RatedDish("f", 0), RatedDish("g", 0), RatedDish("i", 1);
    assert [i, g, c, d, e, f][..5][0 := f] == [f, g, c, d, e];
    assert [f, g, c, d, e][..4][0 := e] == [e, g, c, d];
    assert [e, g, c, d][..3][0 := d] == [d, g, c];
  }

  /** The last six pops as written: ratings 1, 0, 0, then 3, then 0, 0. */
  lemma AsWrittenLastPops()
    ensures DrainAsWritten([RatedDish("i", 1), RatedDish("g", 0), RatedDish("c", 0),
                            RatedDish("d", 3), RatedDish("e", 0), RatedDish("f", 0)]) == [1, 0, 0, 3, 0, 0]
  {
    var c, d, e := RatedDish("c", 0), RatedDish("d", 3), RatedDish("e", 0);
    var f, g, i := RatedDish("f", 0), RatedDish("g", 0), RatedDish("i", 1);
    AsWrittenLowPops();
    var h6 := [d, g, c];
    var h7 := [c, g];
    assert PopAsWritten(h6).1 == h7;
    assert PopAsWritten(h7).1 == [g];
    assert DrainAsWritten([g]) == [0];
    assert DrainAsWritten(h7) == [0, 0];
    assert DrainAsWritten(h6) == [3, 0, 0];
    assert DrainAsWritten([e, g, c, d]) == [0, 3, 0, 0];
    assert DrainAsWritten([f, g, c, d, e]) == [0, 0, 3, 0, 0];
  }

  /**
   * Draining the sample heap as written yields the rating 3 after three lower
   * ratings: the ranking of main.py:564-574 is not sorted.
   */
  lemma AsWrittenDrainIsNotSorted()
    ensures DrainAsWritten(SampleHeap()) == [5, 4, 2, 1, 0, 0, 3, 0, 0]
  {
    var h1 := [RatedDish("b", 4), RatedDish("i", 1), RatedDish("c", 0), RatedDish("d", 3),
               RatedDish("e", 0), RatedDish("f", 0), RatedDish("g", 0), RatedDish("h", 2)];
    var rest := [RatedDish("i", 1), RatedDish("g", 0), RatedDish("c", 0), RatedDish("d", 3), RatedDish("e", 0), RatedDish("f", 0)];
    calc {
      DrainAsWritten(SampleHeap());
      { AsWrittenFirstPop(); }
      [5] + DrainAsWritten(h1);
      { AsWrittenMiddlePops(); }
      [5] + ([4, 2] + DrainAsWritten(rest));
      { AsWrittenLastPops(); }
      [5] + ([4, 2] + [1, 0, 0, 3, 0, 0]);
      [5, 4, 2, 1, 0, 0, 3, 0, 0];
    }
  }

  class MaxHeap {
    var heap: seq<Food>

    ghost predicate Valid()
      reads this
    {
      IsMaxHeap(heap)
    }

    constructor ()
      ensures Valid() && heap == []
    {
      heap := [];
    }

    /** Appends the dish and sifts it up. */
    method Push(dish: Food)
      requires Valid()
      modifies this
      ensures Valid()
      ensures multiset(heap) == old(multiset(heap)) + multiset{dish}
    {
      heap := heap + [dish];
      HeapifyUp(|heap| - 1);
    }

    /**
     * Removes a highest-rated dish: None on an empty heap; otherwise the root,
     * which no remaining dish outranks.
     */
    method Pop() returns (root: Option<Food>)
      requires Valid()
      modifies this
      ensures Valid()
      ensures old(heap) == [] <==> root == None
      ensures root == None ==> heap == []
      ensures root.Some? ==> root.value in old(heap)
                             && multiset(heap) + multiset{root.value} == old(multiset(heap))
                             && forall x :: x in old(heap) ==> root.value.rating >= x.rating
    {
      if |heap| == 0 {
        return None;
      }
      RootIsMaximal(heap);
      if |heap| == 1 {
        root := Some(heap[0]);
        heap := [];
        return;
      }
      var top := heap[0];
      var last := heap[|heap| - 1];
      LastToRoot(heap);
      heap := heap[..|heap| - 1];
      heap := heap[0 := last];
      HeapifyDown(0);
      root := Some(top);
    }

    /** Swaps the dish at `index` with its parent while it outranks it. */
    method HeapifyUp(index: nat)
      requires index < |heap| && HeapExceptUp(heap, index)
      modifies this
      ensures Valid() && multiset(heap) == old(multiset(heap))
    {
      var i: nat := index;
      while i > 0
        invariant i < |heap| && HeapExceptUp(heap, i)
        invariant multiset(heap) == old(multiset(heap))
      {
        var parent := (i - 1) / 2;
        if heap[i].rating > heap[parent].rating {
          SiftUpStep(heap, i);
          SwapPermutes(heap, i, parent);
          heap := Swap(heap, i, parent);
          i := parent;
        } else {
          break;
        }
      }
    }

    /**
     * Swaps the dish at `index` with its higher-rated child while that child
     * outranks it, moving on to the child's own children after each swap.
     */
    method HeapifyDown(index: nat)
      requires index < |heap| && HeapExceptDown(heap, index)
      modifies this
      ensures Valid() && multiset(heap) == old(multiset(heap))
    {
      var i: nat := index;
      var child := 2 * i + 1;
      while child < |heap|
        invariant i < |heap| && child == 2 * i + 1 && HeapExceptDown(heap, i)
        invariant multiset(heap) == old(multiset(heap))
        decreases |heap| - i
      {
        var right := child + 1;
        if right < |heap| && heap[right].rating > heap[child].rating {
          child := right;
        }
        if heap[i].rating < heap[child].rating {
          SiftDownSwap(heap, i, child);
          heap := Swap(heap, i, child);
          i := child;
          child := 2 * i + 1;
        } else {
          SiftDownStop(heap, i, child);
          return;
        }
      }
      SiftDownLeaf(heap, i);
    }
  }
}
