/**
 * The special-offers tree (main.py:292-338): a binary search tree of foods
 * keyed by name, whose in-order listing is the offer board in alphabetical
 * order.  Names compare as Python strings do: character by character, a
 * proper prefix first.
 */
module OfferIndex {
  import opened Entities

  /** Python's `<` on strings. */
  predicate LexLess(a: string, b: string)
  {
    if a == [] then b != []
    else if b == [] then false
    else if a[0] != b[0] then a[0] < b[0]
    else LexLess(a[1..], b[1..])
  }

  lemma {:induction false} LexLessIrreflexive(a: string)
    ensures !LexLess(a, a)
  {
    if a != [] {
      LexLessIrreflexive(a[1..]);
    }
  }

  lemma {:induction false} LexLessTransitive(a: string, b: string, c: string)
    requires LexLess(a, b) && LexLess(b, c)
    ensures LexLess(a, c)
  {
    if a != [] && b != [] && c != [] && a[0] == b[0] && b[0] == c[0] {
      LexLessTransitive(a[1..], b[1..], c[1..]);
    }
  }

  /** Two different names are always ordered one way or the other, never both. */
  lemma {:induction false} LexLessTotal(a: string, b: string)
    ensures a != b <==> LexLess(a, b) || LexLess(b, a)
    ensures !(LexLess(a, b) && LexLess(b, a))
  {
    if a == [] || b == [] {
    } else if a[0] != b[0] {
    } else {
      LexLessTotal(a[1..], b[1..]);
      assert a == [a[0]] + a[1..] && b == [b[0]] + b[1..];
    }
  }

  datatype OfferTree = Leaf | Node(food: Food, left: OfferTree, right: OfferTree)

  function InOrder(t: OfferTree): seq<Food>
  {
    match t
    case Leaf => []
    case Node(f, l, r) => InOrder(l) + [f] + InOrder(r)
  }

  function Names(t: OfferTree): set<string>
  {
    match t
    case Leaf => {}
    case Node(f, l, r) => Names(l) + {f.name} + Names(r)
  }

  /** Names in the left subtree sort before the node's, names in the right subtree after. */
  ghost predicate IsSearchTree(t: OfferTree)
  {
    match t
    case Leaf => true
    case Node(f, l, r) =>
      && IsSearchTree(l) && IsSearchTree(r)
      && (forall n :: n in Names(l) ==> LexLess(n, f.name))
      && (forall n :: n in Names(r) ==> LexLess(f.name, n))
  }

  /**
   * `insert_offer_BST` with a repeated name treated as already present
   * (the corrected descent): smaller names go left, larger ones right.
   */
  function Insert(t: OfferTree, food: Food): OfferTree
  {
    match t
    case Leaf => Node(food, Leaf, Leaf)
    case Node(f, l, rt) =>
      if LexLess(food.name, f.name) then Node(f, Insert(l, food), rt)
      else if LexLess(f.name, food.name) then Node(f, l, Insert(rt, food))
      else t
  }

  /** Insertion adds the food's name to the tree's names and no other. */
  lemma {:induction false} InsertNames(t: OfferTree, food: Food)
    ensures Names(Insert(t, food)) == Names(t) + {food.name}
  {
    match t
    case Leaf =>
    case Node(f, l, rt) =>
      if LexLess(food.name, f.name) {
        InsertNames(l, food);
        assert Insert(t, food) == Node(f, Insert(l, food), rt);
        assert Names(Insert(t, food)) == Names(Insert(l, food)) + {f.name} + Names(rt);
      } else if LexLess(f.name, food.name) {
        InsertNames(rt, food);
        assert Insert(t, food) == Node(f, l, Insert(rt, food));
        assert Names(Insert(t, food)) == Names(l) + {f.name} + Names(Insert(rt, food));
      } else {
        LexLessTotal(food.name, f.name);
      }
  }

  /** Insertion keeps the search order, and a name already present leaves the tree as it was. */
  lemma {:induction false} InsertKeepsOrder(t: OfferTree, food: Food)
    requires IsSearchTree(t)
    ensures IsSearchTree(Insert(t, food))
    ensures food.name in Names(t) ==> Insert(t, food) == t
  {
    match t
    case Leaf =>
    case Node(f, l, rt) =>
      LexLessTotal(food.name, f.name);
      if LexLess(food.name, f.name) {
        InsertKeepsOrder(l, food);
        InsertNames(l, food);
        if food.name in Names(rt) { LexLessTotal(f.name, food.name); }
      } else if LexLess(f.name, food.name) {
        InsertKeepsOrder(rt, food);
        InsertNames(rt, food);
        if food.name in Names(l) { LexLessTotal(f.name, food.name); }
      }
  }

  /** Insertion lists nothing but what was listed before and the inserted food. */
  lemma {:induction false} InsertListsOnlyNew(t: OfferTree, food: Food)
    ensures forall f :: f in InOrder(Insert(t, food)) ==> f in InOrder(t) || f == food
  {
    match t
    case Leaf =>
    case Node(g, l, rt) =>
      if LexLess(food.name, g.name) {
        InsertListsOnlyNew(l, food);
      } else if LexLess(g.name, food.name) {
        InsertListsOnlyNew(rt, food);
      }
  }

  /** Every listed food's name is in the tree. */
  lemma {:induction false} InOrderNames(t: OfferTree)
    ensures forall f :: f in InOrder(t) ==> f.name in Names(t)
    ensures forall n :: n in Names(t) ==> exists f :: f in InOrder(t) && f.name == n
  {
    match t
    case Leaf =>
    case Node(g, l, r) =>
      InOrderNames(l);
      InOrderNames(r);
      assert g in InOrder(t);
  }

  ghost predicate Ascending(s: seq<Food>)
  {
    forall i, j :: 0 <= i < j < |s| ==> LexLess(s[i].name, s[j].name)
  }

  /** Two ascending listings on either side of a food whose name separates them join into one. */
  lemma JoinAscending(a: seq<Food>, f: Food, b: seq<Food>)
    requires Ascending(a) && Ascending(b)
    requires forall x :: x in a ==> LexLess(x.name, f.name)
    requires forall y :: y in b ==> LexLess(f.name, y.name)
    ensures Ascending(a + [f] + b)
  {
    var s := a + [f] + b;
    var n := |a|;
    forall i, j | 0 <= i < j < |s|
      ensures LexLess(s[i].name, s[j].name)
    {
      if j < n {
        assert s[i] == a[i] && s[j] == a[j];
      } else if i > n {
        assert s[i] == b[i - n - 1] && s[j] == b[j - n - 1];
      } else if i == n {
        assert s[j] == b[j - n - 1] && s[j] in b;
      } else {
        assert s[i] == a[i] && s[i] in a;
        if j > n {
          assert s[j] == b[j - n - 1] && s[j] in b;
          LexLessTransitive(s[i].name, f.name, s[j].name);
        }
      }
    }
  }

  /** `in_order_offer` lists the foods in strictly ascending name order. */
  lemma {:induction false} InOrderAscending(t: OfferTree)
    requires IsSearchTree(t)
    ensures Ascending(InOrder(t))
  {
    match t
    case Leaf =>
    case Node(f, l, r) =>
      InOrderAscending(l);
      InOrderAscending(r);
      InOrderNames(l);
      InOrderNames(r);
      JoinAscending(InOrder(l), f, InOrder(r));
  }

  /** The cursor of the `while True` descent: at a node, or done after attaching the new node. */
  datatype Descent = At(node: OfferTree) | Attached

  /** One turn of the loop as written: an equal name neither attaches nor moves. */
  function DescentStep(d: Descent, name: string): Descent
  {
    match d
    case Attached => Attached
    case At(Leaf) => Attached
    case At(Node(f, l, r)) =>
      if LexLess(name, f.name) then (if l == Leaf then Attached else At(l))
      else if LexLess(f.name, name) then (if r == Leaf then Attached else At(r))
      else d
  }

  /** The cursor after `k` turns of the loop. */
  function DescentAfter(d: Descent, name: string, k: nat): Descent
    decreases k
  {
    if k == 0 then d else DescentAfter(DescentStep(d, name), name, k - 1)
  }

  /**
   * A name already in the tree keeps the descent on a subtree holding it, so
   * the loop as written never attaches and never returns.
   */
  lemma {:induction false} DuplicateNeverAttaches(t: OfferTree, name: string, k: nat)
    requires IsSearchTree(t) && name in Names(t)
    ensures DescentAfter(At(t), name, k) != Attached
  {
    if k > 0 {
      match t
      case Node(f, l, r) =>
        LexLessTotal(name, f.name);
        if LexLess(name, f.name) {
          assert name !in Names(r) by {
            if name in Names(r) { LexLessTotal(f.name, name); }
          }
          assert name != f.name by { LexLessIrreflexive(name); }
          DuplicateNeverAttaches(l, name, k - 1);
        } else if LexLess(f.name, name) {
          assert name !in Names(l) by {
            if name in Names(l) { LexLessTotal(f.name, name); }
          }
          assert name != f.name by { LexLessIrreflexive(name); }
          DuplicateNeverAttaches(r, name, k - 1);
        } else {
          DuplicateNeverAttaches(t, name, k - 1);
        }
    }
  }

  /** A tree holding one offered food. */
  function OneOffer(food: Food): OfferTree
  {
    Node(food, Leaf, Leaf)
  }

  /** Offering the same food twice: the corrected insert keeps one entry; the descent as written spins. */
  lemma SecondOfferOfSameFood(food: Food, k: nat)
    ensures Insert(OneOffer(food), food) == OneOffer(food)
    ensures DescentAfter(At(OneOffer(food)), food.name, k) == At(OneOffer(food))
  {
    LexLessIrreflexive(food.name);
    if k > 0 {
      SecondOfferOfSameFood(food, k - 1);
    }
  }
}
