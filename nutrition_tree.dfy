/**
 * The nutrition tree (main.py:189-264): a binary search tree of foods keyed by
 * nutrition score.  A smaller score goes left, an equal or larger one right,
 * so equal scores keep their arrival order in the in-order listing.  The tree
 * only ever reads a food's name and score, so a node holds just those two.
 */
module NutritionIndex {
  import opened Wrappers

  datatype Entry = Entry(name: string, score: real)

  datatype NutritionTree = Empty | Node(entry: Entry, left: NutritionTree, right: NutritionTree)

  /** The entries, left subtree first. */
  function InOrder(t: NutritionTree): seq<Entry>
  {
    match t
    case Empty => []
    case Node(e, l, r) => InOrder(l) + [e] + InOrder(r)
  }

  /** Left subtree strictly below the node's score, right subtree at or above it. */
  ghost predicate IsBst(t: NutritionTree)
  {
    match t
    case Empty => true
    case Node(e, l, r) =>
      && IsBst(l) && IsBst(r)
      && (forall x :: x in InOrder(l) ==> x.score < e.score)
      && (forall x :: x in InOrder(r) ==> x.score >= e.score)
  }

  /** `insert_food`: walks down by score and hangs the new entry as a leaf. */
  function Insert(t: NutritionTree, e: Entry): NutritionTree
  {
    match t
    case Empty => Node(e, Empty, Empty)
    case Node(x, l, rt) =>
      if e.score < x.score then Node(x, Insert(l, e), rt)
      else Node(x, l, Insert(rt, e))
  }

  /** Insertion adds exactly the new entry to the tree's listing. */
  lemma {:induction false} InsertAddsEntry(t: NutritionTree, e: Entry)
    ensures multiset(InOrder(Insert(t, e))) == multiset(InOrder(t)) + multiset{e}
  {
    match t
    case Empty =>
    case Node(x, l, rt) =>
      var ml, mr := multiset(InOrder(l)), multiset(InOrder(rt));
      assert multiset(InOrder(t)) == ml + multiset{x} + mr;
      if e.score < x.score {
        InsertAddsEntry(l, e);
        assert multiset(InOrder(Insert(t, e))) == multiset(InOrder(Insert(l, e))) + multiset{x} + mr;
      } else {
        InsertAddsEntry(rt, e);
        assert multiset(InOrder(Insert(t, e))) == ml + multiset{x} + multiset(InOrder(Insert(rt, e)));
      }
  }


  /** Insertion lists nothing but what was listed before and the new entry. */
  lemma {:induction false} InsertListsOnly(t: NutritionTree, e: Entry)
    ensures forall y :: y in InOrder(Insert(t, e)) ==> y == e || y in InOrder(t)
  {
    match t
    case Empty =>
    case Node(x, l, rt) =>
      if e.score < x.score {
        InsertListsOnly(l, e);
      } else {
        InsertListsOnly(rt, e);
      }
  }

  /** Insertion keeps the search-tree order. */
  lemma {:induction false} InsertKeepsOrder(t: NutritionTree, e: Entry)
    requires IsBst(t)
    ensures IsBst(Insert(t, e))
  {
    match t
    case Empty =>
    case Node(x, l, rt) =>
      if e.score < x.score {
        InsertKeepsOrder(l, e);
        InsertListsOnly(l, e);
        assert Insert(t, e) == Node(x, Insert(l, e), rt);
      } else {
        InsertKeepsOrder(rt, e);
        InsertListsOnly(rt, e);
        assert Insert(t, e) == Node(x, l, Insert(rt, e));
      }
  }

  /** The in-order listing of a search tree is sorted by score. */
  lemma {:induction false} InOrderSorted(t: NutritionTree)
    requires IsBst(t)
    ensures forall i, j :: 0 <= i < j < |InOrder(t)| ==> InOrder(t)[i].score <= InOrder(t)[j].score
  {
    match t
    case Empty =>
    case Node(e, l, r) =>
      InOrderSorted(l);
      InOrderSorted(r);
      var s := InOrder(t);
      forall i, j | 0 <= i < j < |s|
        ensures s[i].score <= s[j].score
      {
        var n := |InOrder(l)|;
        if i < n { assert s[i] == InOrder(l)[i] && s[i] in InOrder(l); }
        if i > n { assert s[i] == InOrder(r)[i - n - 1]; }
        if j < n { assert s[j] == InOrder(l)[j]; }
        if j > n { assert s[j] == InOrder(r)[j - n - 1] && s[j] in InOrder(r); }
      }
  }

  predicate InRange(e: Entry, avgScore: real, tolerance: real)
  {
    avgScore - tolerance <= e.score <= avgScore + tolerance
  }

  /** The names of the in-range entries of a listing, in listing order. */
  function NamesInRange(s: seq<Entry>, avgScore: real, tolerance: real): seq<string>
  {
    if s == [] then []
    else (if InRange(s[0], avgScore, tolerance) then [s[0].name] else []) + NamesInRange(s[1..], avgScore, tolerance)
  }

  /** The in-range names of a listing are exactly the names of its in-range entries, and no more of them than entries. */
  lemma {:induction false} NamesInRangeMembers(s: seq<Entry>, avgScore: real, tolerance: real)
    ensures forall e :: e in s && InRange(e, avgScore, tolerance) ==> e.name in NamesInRange(s, avgScore, tolerance)
    ensures forall n :: n in NamesInRange(s, avgScore, tolerance) ==> exists e :: e in s && InRange(e, avgScore, tolerance) && e.name == n
    ensures |NamesInRange(s, avgScore, tolerance)| <= |s|
  {
    if s != [] {
      NamesInRangeMembers(s[1..], avgScore, tolerance);
      assert forall e :: e in s ==> e == s[0] || e in s[1..];
      assert forall e :: e in s[1..] ==> e in s;
    }
  }

  lemma {:induction false} NamesInRangeAppend(a: seq<Entry>, b: seq<Entry>, avgScore: real, tolerance: real)
    ensures NamesInRange(a + b, avgScore, tolerance)
         == NamesInRange(a, avgScore, tolerance) + NamesInRange(b, avgScore, tolerance)
  {
    if a != [] {
      assert (a + b)[1..] == a[1..] + b;
      NamesInRangeAppend(a[1..], b, avgScore, tolerance);
    } else {
      assert a + b == b;
    }
  }

  /** `inorder_recommendations`: names whose score lies within `tolerance` of `avgScore`. */
  function Recommendations(t: NutritionTree, avgScore: real, tolerance: real): seq<string>
  {
    match t
    case Empty => []
    case Node(e, l, r) =>
      Recommendations(l, avgScore, tolerance)
      + (if InRange(e, avgScore, tolerance) then [e.name] else [])
      + Recommendations(r, avgScore, tolerance)
  }

  /**
   * The recommendations are the in-range names of the in-order listing, so
   * they come in ascending score order and miss no in-range food.
   */
  lemma {:induction false} RecommendationsFollowInOrder(t: NutritionTree, avgScore: real, tolerance: real)
    ensures Recommendations(t, avgScore, tolerance) == NamesInRange(InOrder(t), avgScore, tolerance)
  {
    match t
    case Empty =>
    case Node(e, l, r) =>
      RecommendationsFollowInOrder(l, avgScore, tolerance);
      RecommendationsFollowInOrder(r, avgScore, tolerance);
      NamesInRangeAppend(InOrder(l) + [e], InOrder(r), avgScore, tolerance);
      NamesInRangeAppend(InOrder(l), [e], avgScore, tolerance);
      assert [e][1..] == [];
      assert NamesInRange([e], avgScore, tolerance) == (if InRange(e, avgScore, tolerance) then [e.name] else []);
      assert InOrder(t) == InOrder(l) + [e] + InOrder(r);
  }

  /**
   * `_search`: descends by score; an exact match answers at once, and every
   * node passed on the right becomes the best lower candidate so far.
   */
  function Search(t: NutritionTree, score: real, closest: Option<Entry>): Option<Entry>
  {
    match t
    case Empty => closest
    case Node(e, l, r) =>
      if e.score == score then Some(e)
      else if score < e.score then Search(l, score, closest)
      else Search(r, score, Some(e))
  }

  /** `get_food`: the name of an entry with exactly this score, else of the closest lower one. */
  function GetFood(t: NutritionTree, score: real): Option<string>
  {
    match Search(t, score, None)
    case None => None
    case Some(e) => Some(e.name)
  }

  ghost predicate HasScore(t: NutritionTree, score: real)
  {
    exists e :: e in InOrder(t) && e.score == score
  }

  ghost predicate HasBelow(t: NutritionTree, score: real)
  {
    exists e :: e in InOrder(t) && e.score < score
  }

  /** `e` has the largest score below `score` in `t`. */
  ghost predicate IsFloor(t: NutritionTree, score: real, e: Entry)
  {
    && e in InOrder(t) && e.score < score
    && forall x :: x in InOrder(t) && x.score < score ==> x.score <= e.score
  }

  lemma {:induction false} SearchFindsExactOrFloor(t: NutritionTree, score: real, closest: Option<Entry>)
    requires IsBst(t)
    ensures HasScore(t, score) ==>
              Search(t, score, closest).Some? && Search(t, score, closest).value in InOrder(t)
              && Search(t, score, closest).value.score == score
    ensures !HasScore(t, score) && HasBelow(t, score) ==>
              Search(t, score, closest).Some? && IsFloor(t, score, Search(t, score, closest).value)
    ensures !HasBelow(t, score) && !HasScore(t, score) ==> Search(t, score, closest) == closest
  {
    match t
    case Empty =>
    case Node(e, l, r) =>
      var all := InOrder(t);
      assert forall x :: x in all <==> x in InOrder(l) || x == e || x in InOrder(r);
      if e.score == score {
      } else if score < e.score {
        SearchFindsExactOrFloor(l, score, closest);
        assert HasScore(t, score) ==> HasScore(l, score);
        assert HasBelow(t, score) ==> HasBelow(l, score);
        assert HasBelow(l, score) ==> HasBelow(t, score);
        assert HasScore(l, score) ==> HasScore(t, score);
      } else {
        SearchFindsExactOrFloor(r, score, Some(e));
        assert HasScore(t, score) ==> HasScore(r, score);
        assert HasScore(r, score) ==> HasScore(t, score);
        assert HasBelow(t, score);
      }
  }

  /** `get_food` names a food of exactly the asked score whenever the tree holds one. */
  lemma GetFoodExact(t: NutritionTree, score: real)
    requires IsBst(t) && HasScore(t, score)
    ensures exists e :: e in InOrder(t) && e.score == score && GetFood(t, score) == Some(e.name)
  {
    SearchFindsExactOrFloor(t, score, None);
    var e := Search(t, score, None).value;
    assert e in InOrder(t) && e.score == score && GetFood(t, score) == Some(e.name);
  }

  /**
   * Without an exact match `get_food` names the highest-scoring food below the
   * asked score, and answers `None` exactly when every food scores above it.
   */
  lemma GetFoodFloor(t: NutritionTree, score: real)
    requires IsBst(t) && !HasScore(t, score)
    ensures GetFood(t, score) == None <==> forall x :: x in InOrder(t) ==> x.score > score
    ensures GetFood(t, score).Some? ==> exists e :: IsFloor(t, score, e) && GetFood(t, score) == Some(e.name)
  {
    SearchFindsExactOrFloor(t, score, None);
    if GetFood(t, score).Some? {
      var e := Search(t, score, None).value;
      assert IsFloor(t, score, e);
    }
  }

  /** Foods scoring 10, 20 and 30: 20 is found exactly, 15 falls back to 10, 5 finds nothing. */
  lemma ThreeFoods()
    ensures var t := Insert(Insert(Insert(Empty, Entry("Salad", 10.0)), Entry("Soup", 20.0)), Entry("Steak", 30.0));
      && GetFood(t, 20.0) == Some("Soup")
      && GetFood(t, 15.0) == Some("Salad")
      && GetFood(t, 5.0) == None
      && Recommendations(t, 22.0, 10.0) == ["Soup", "Steak"]
  {
  }
}
