/**
 * The recommendation engine's catalogue (main.py:340-750): users, foods,
 * cuisines and the indexes kept beside them, and the strategies that read
 * them.  Foods and users are handles (indices into `foodItems` and `users`),
 * so the cuisine lists, the promotion list and the graph hold handles where
 * the Python code holds shared objects; an update to a food's rating is then
 * seen through every list, as it is in Python.
 */
module Catalog {
  import opened Wrappers
  import opened Entities
  import opened Selection
  import Recency
  import Heap
  import CuisineIndex
  import NutritionIndex
  import Relations
  import OfferIndex

  /** The capacity of the new-arrivals list. */
  const NewArrivalsCapacity: nat := 5

  /** The tolerance of the nutrition-based strategy. */
  const NutritionTolerance: real := 15.0

  /** What the nutrition tree keeps of a food. */
  function EntryOf(f: Food): NutritionIndex.Entry
  {
    NutritionIndex.Entry(f.name, f.nutritionScore)
  }

  /** The first index holding a food of that name. */
  function FirstFoodNamed(foods: seq<Food>, name: string): (r: Option<nat>)
    ensures r.Some? ==> r.value < |foods| && foods[r.value].name == name
                        && forall k :: 0 <= k < r.value ==> foods[k].name != name
    ensures r.None? <==> forall f :: f in foods ==> f.name != name
  {
    if foods == [] then None
    else if foods[0].name == name then Some(0)
    else match FirstFoodNamed(foods[1..], name)
      case None => None
      case Some(k) => Some(k + 1)
  }

  /** The first index holding a user of that name. */
  function FirstUserNamed(users: seq<User>, name: string): (r: Option<nat>)
    ensures r.Some? ==> r.value < |users| && users[r.value].name == name
                        && forall k :: 0 <= k < r.value ==> users[k].name != name
    ensures r.None? <==> forall u :: u in users ==> u.name != name
  {
    if users == [] then None
    else if users[0].name == name then Some(0)
    else match FirstUserNamed(users[1..], name)
      case None => None
      case Some(k) => Some(k + 1)
  }

  /** The scan of `login_user` for the first user of that name. */
  method FindUser(users: seq<User>, name: string) returns (found: Option<nat>)
    ensures found == FirstUserNamed(users, name)
  {
    for i := 0 to |users|
      invariant forall k :: 0 <= k < i ==> users[k].name != name
    {
      if users[i].name == name {
        return Some(i);
      }
    }
    return None;
  }

  /** The scan for the first food of that name, shared by `addFood`, `order_food`, `pair_recommendations` and `add_offers`. */
  method FindFood(foods: seq<Food>, name: string) returns (found: Option<nat>)
    ensures found == FirstFoodNamed(foods, name)
  {
    for i := 0 to |foods|
      invariant forall k :: 0 <= k < i ==> foods[k].name != name
    {
      if foods[i].name == name {
        return Some(i);
      }
    }
    return None;
  }

  /** The scan of `rate_dish` through one cuisine's dishes. */
  method FindListed(handles: seq<nat>, foods: seq<Food>, name: string) returns (found: Option<nat>)
    requires forall k :: 0 <= k < |handles| ==> handles[k] < |foods|
    ensures found == FirstListedNamed(handles, foods, name)
    ensures found.Some? ==> found.value < |handles|
  {
    for i := 0 to |handles|
      invariant forall k :: 0 <= k < i ==> foods[handles[k]].name != name
    {
      if foods[handles[i]].name == name {
        FirstListedNamedFinds(handles, foods, name);
        return Some(i);
      }
    }
    FirstListedNamedFinds(handles, foods, name);
    return None;
  }

  /** The first handle in a cuisine list whose food has that name. */
  function FirstListedNamed(handles: seq<nat>, foods: seq<Food>, name: string): Option<nat>
    requires forall k :: 0 <= k < |handles| ==> handles[k] < |foods|
  {
    if handles == [] then None
    else if foods[handles[0]].name == name then Some(0)
    else match FirstListedNamed(handles[1..], foods, name)
      case None => None
      case Some(k) => Some(k + 1)
  }

  /** `FirstListedNamed` finds the first listed food of that name, and finds none only when none is listed. */
  lemma {:induction false} FirstListedNamedFinds(handles: seq<nat>, foods: seq<Food>, name: string)
    requires forall k :: 0 <= k < |handles| ==> handles[k] < |foods|
    ensures var r := FirstListedNamed(handles, foods, name);
      && (r.Some? ==> r.value < |handles| && foods[handles[r.value]].name == name
                      && forall k :: 0 <= k < r.value ==> foods[handles[k]].name != name)
      && (r.None? <==> forall k :: 0 <= k < |handles| ==> foods[handles[k]].name != name)
  {
    if handles != [] && foods[handles[0]].name != name {
      FirstListedNamedFinds(handles[1..], foods, name);
    }
  }

  /** The foods a list of handles designates. */
  function FoodsAt(handles: seq<nat>, foods: seq<Food>): (r: seq<Food>)
    requires forall k :: 0 <= k < |handles| ==> handles[k] < |foods|
    ensures |r| == |handles| && forall k :: 0 <= k < |handles| ==> r[k] == foods[handles[k]]
  {
    seq(|handles|, k requires 0 <= k < |handles| => foods[handles[k]])
  }

  function NamesOf(s: seq<Food>): (r: seq<string>)
    ensures |r| == |s| && forall k :: 0 <= k < |s| ==> r[k] == s[k].name
  {
    seq(|s|, k requires 0 <= k < |s| => s[k].name)
  }

  ghost predicate RatingDescending(s: seq<Food>)
  {
    forall i, j :: 0 <= i < j < |s| ==> s[i].rating >= s[j].rating
  }

  /** A vertex handle that designates an existing user or food. */
  predicate IsHandle(v: Vertex, userCount: nat, foodCount: nat)
  {
    match v
    case UserV(i) => i < userCount
    case FoodV(j) => j < foodCount
  }

  /** Every entity is a vertex, and edges only ever join a user to a food. */
  ghost predicate GraphOk(adj: map<Vertex, seq<Vertex>>, userCount: nat, foodCount: nat)
  {
    && (forall v :: v in adj <==> IsHandle(v, userCount, foodCount))
    && (forall v, w :: v in adj && w in adj[v] ==> IsHandle(w, userCount, foodCount) && (v.UserV? <==> w.FoodV?))
  }

  /** A new user, or a new food, joins the graph without neighbours. */
  lemma GraphOkNewVertex(adj: map<Vertex, seq<Vertex>>, userCount: nat, foodCount: nat, v: Vertex)
    requires GraphOk(adj, userCount, foodCount)
    requires v == UserV(userCount) || v == FoodV(foodCount)
    ensures v !in adj
    ensures var (users', foods') := if v.UserV? then (userCount + 1, foodCount) else (userCount, foodCount + 1);
      GraphOk(adj[v := []], users', foods')
  {
    var (users', foods') := if v.UserV? then (userCount + 1, foodCount) else (userCount, foodCount + 1);
    forall u, w | u in adj[v := []] && w in adj[v := []][u]
      ensures IsHandle(w, users', foods') && (u.UserV? <==> w.FoodV?)
    {
      assert u != v && w in adj[u];
      assert IsHandle(w, userCount, foodCount);
    }
  }

  /** An order links a user to a food. */
  lemma GraphOkLink(adj: map<Vertex, seq<Vertex>>, userCount: nat, foodCount: nat, u: nat, f: nat)
    requires GraphOk(adj, userCount, foodCount) && u < userCount && f < foodCount
    ensures UserV(u) in adj && FoodV(f) in adj
    ensures GraphOk(Relations.Link(adj, UserV(u), FoodV(f)), userCount, foodCount)
  {
    var adj' := Relations.Link(adj, UserV(u), FoodV(f));
    Relations.LinkAddsOneEdge(adj, UserV(u), FoodV(f));
    forall v, w | v in adj' && w in adj'[v]
      ensures IsHandle(w, userCount, foodCount) && (v.UserV? <==> w.FoodV?)
    {
      if v == UserV(u) {
        assert w in adj[v] + [FoodV(f)];
      } else if v == FoodV(f) {
        assert w in adj[v] + [UserV(u)];
      } else {
        assert w in adj[v];
      }
    }
  }

  /** A cuisine's list holds handles of foods of that cuisine, each stamped with its position. */
  ghost predicate CuisineListsOk(cuisines: map<string, seq<nat>>, foods: seq<Food>)
  {
    forall c, k :: c in cuisines && 0 <= k < |cuisines[c]| ==>
      cuisines[c][k] < |foods| && foods[cuisines[c][k]].cuisineType == c && foods[cuisines[c][k]].timestamp == k
  }

  ghost predicate UniqueNames(foods: seq<Food>)
  {
    forall i, j :: 0 <= i < j < |foods| ==> foods[i].name != foods[j].name
  }

  /** The nutrition tree is a search tree holding exactly the foods' entries. */
  ghost predicate NutritionOk(tree: NutritionIndex.NutritionTree, foods: seq<Food>)
  {
    NutritionIndex.IsBst(tree) && TreeBag(tree) == FoodBag(foods)
  }

  /** The entries a nutrition tree holds, counted with multiplicity. */
  ghost function TreeBag(t: NutritionIndex.NutritionTree): multiset<NutritionIndex.Entry>
  {
    match t
    case Empty => multiset{}
    case Node(e, l, r) => TreeBag(l) + multiset{e} + TreeBag(r)
  }

  /** The entries of a list of foods, counted with multiplicity. */
  ghost function FoodBag(foods: seq<Food>): multiset<NutritionIndex.Entry>
  {
    if foods == [] then multiset{} else FoodBag(foods[..|foods| - 1]) + multiset{EntryOf(foods[|foods| - 1])}
  }

  lemma {:induction false} TreeBagIsInOrder(t: NutritionIndex.NutritionTree)
    ensures TreeBag(t) == multiset(NutritionIndex.InOrder(t))
  {
    match t
    case Empty =>
    case Node(e, l, r) =>
      TreeBagIsInOrder(l);
      TreeBagIsInOrder(r);
  }

  /** An entry is in the bag exactly when some food yields it. */
  lemma {:induction false} FoodBagMembers(foods: seq<Food>, e: NutritionIndex.Entry)
    ensures e in FoodBag(foods) <==> exists i :: 0 <= i < |foods| && EntryOf(foods[i]) == e
  {
    if foods != [] {
      var init := foods[..|foods| - 1];
      FoodBagMembers(init, e);
      if e in FoodBag(init) {
        var i :| 0 <= i < |init| && EntryOf(init[i]) == e;
        assert EntryOf(foods[i]) == e;
      }
      if i :| 0 <= i < |foods| && EntryOf(foods[i]) == e {
        if i < |init| {
          assert EntryOf(init[i]) == e;
        }
      }
    }
  }

  /** Foods that agree on names and scores have the same bag of entries. */
  lemma {:induction false} FoodBagAgrees(foods: seq<Food>, foods': seq<Food>)
    requires |foods'| == |foods|
    requires forall i :: 0 <= i < |foods| ==> EntryOf(foods'[i]) == EntryOf(foods[i])
    ensures FoodBag(foods') == FoodBag(foods)
  {
    if foods != [] {
      FoodBagAgrees(foods[..|foods| - 1], foods'[..|foods| - 1]);
    }
  }

  /** The invariant over the catalogue's own data. */
  ghost predicate CatalogOk(users: seq<User>, foods: seq<Food>, loggedUser: Option<nat>,
                            adj: map<Vertex, seq<Vertex>>, tree: NutritionIndex.NutritionTree,
                            cuisines: map<string, seq<nat>>, promotionList: seq<nat>, popularDishes: seq<Tally>)
  {
    && CuisineListsOk(cuisines, foods)
    && UniqueNames(foods)
    && GraphOk(adj, |users|, |foods|)
    && (loggedUser.Some? ==> loggedUser.value < |users|)
    && NutritionOk(tree, foods)
    && (forall k :: 0 <= k < |promotionList| ==> promotionList[k] < |foods|)
    && DistinctNames(popularDishes)
  }

  /** A food as `addFood` creates it: unrated and without a promotion. */
  function NewFood(name: string, cuisineType: string, calories: int, score: real, dietaryRestrictions: string,
                   allergens: seq<string>, mealType: string, flavorProfile: string, timestamp: nat): Food
  {
    Food(name, cuisineType, calories, score, 0, dietaryRestrictions, allergens, mealType, flavorProfile, timestamp, None)
  }

  /** Listing a new food at the end of its cuisine's list keeps the lists consistent. */
  lemma AddFoodKeepsCuisineLists(cuisines: map<string, seq<nat>>, foods: seq<Food>, food: Food)
    requires CuisineListsOk(cuisines, foods)
    requires food.cuisineType in cuisines ==> food.timestamp == |cuisines[food.cuisineType]|
    ensures CuisineListsOk(if food.cuisineType in cuisines
                           then cuisines[food.cuisineType := cuisines[food.cuisineType] + [|foods|]]
                           else cuisines, foods + [food])
  {
    var foods' := foods + [food];
    var ct := food.cuisineType;
    var cuisines' := if ct in cuisines then cuisines[ct := cuisines[ct] + [|foods|]] else cuisines;
    forall c, k | c in cuisines' && 0 <= k < |cuisines'[c]|
      ensures cuisines'[c][k] < |foods'| && foods'[cuisines'[c][k]].cuisineType == c
              && foods'[cuisines'[c][k]].timestamp == k
    {
      if c == ct && k == |cuisines[c]| {
        assert cuisines'[c][k] == |foods|;
      } else {
        assert cuisines'[c][k] == cuisines[c][k];
      }
    }
  }

  lemma AddFoodKeepsUniqueNames(foods: seq<Food>, food: Food)
    requires UniqueNames(foods)
    requires forall f :: f in foods ==> f.name != food.name
    ensures UniqueNames(foods + [food])
  {
    var foods' := foods + [food];
    forall i, j | 0 <= i < j < |foods'|
      ensures foods'[i].name != foods'[j].name
    {
      if j == |foods| {
        assert foods'[i] in foods;
      }
    }
  }

  lemma AddFoodKeepsNutrition(tree: NutritionIndex.NutritionTree, foods: seq<Food>, food: Food)
    requires NutritionOk(tree, foods)
    ensures NutritionOk(NutritionIndex.Insert(tree, EntryOf(food)), foods + [food])
  {
    NutritionIndex.InsertKeepsOrder(tree, EntryOf(food));
    TreeBagIsInOrder(tree);
    TreeBagIsInOrder(NutritionIndex.Insert(tree, EntryOf(food)));
    NutritionIndex.InsertAddsEntry(tree, EntryOf(food));
    assert (foods + [food])[..|foods|] == foods;
  }

  /**
   * Adding a food under a fresh name keeps the catalogue invariant, with the
   * food stamped with its position when its cuisine is registered.
   */
  lemma AddFoodKeepsCatalog(users: seq<User>, foods: seq<Food>, loggedUser: Option<nat>,
                            adj: map<Vertex, seq<Vertex>>, tree: NutritionIndex.NutritionTree,
                            cuisines: map<string, seq<nat>>, promotionList: seq<nat>, popularDishes: seq<Tally>,
                            food: Food)
    requires CatalogOk(users, foods, loggedUser, adj, tree, cuisines, promotionList, popularDishes)
    requires forall f :: f in foods ==> f.name != food.name
    requires food.cuisineType in cuisines ==> food.timestamp == |cuisines[food.cuisineType]|
    ensures FoodV(|foods|) !in adj
    ensures CatalogOk(users, foods + [food], loggedUser, adj[FoodV(|foods|) := []],
                      NutritionIndex.Insert(tree, EntryOf(food)),
                      if food.cuisineType in cuisines
                      then cuisines[food.cuisineType := cuisines[food.cuisineType] + [|foods|]]
                      else cuisines,
                      promotionList, popularDishes)
  {
    AddFoodKeepsCuisineLists(cuisines, foods, food);
    AddFoodKeepsUniqueNames(foods, food);
    GraphOkNewVertex(adj, |users|, |foods|, FoodV(|foods|));
    AddFoodKeepsNutrition(tree, foods, food);
  }

  /** Updating foods in place without touching a name, cuisine, stamp or score keeps the invariant. */
  lemma RetouchKeepsCatalog(users: seq<User>, foods: seq<Food>, loggedUser: Option<nat>,
                            adj: map<Vertex, seq<Vertex>>, tree: NutritionIndex.NutritionTree,
                            cuisines: map<string, seq<nat>>, promotionList: seq<nat>, popularDishes: seq<Tally>,
                            users': seq<User>, foods': seq<Food>, promotionList': seq<nat>)
    requires CatalogOk(users, foods, loggedUser, adj, tree, cuisines, promotionList, popularDishes)
    requires |users'| == |users| && |foods'| == |foods|
    requires forall i :: 0 <= i < |foods| ==>
      && foods'[i].name == foods[i].name && foods'[i].cuisineType == foods[i].cuisineType
      && foods'[i].timestamp == foods[i].timestamp && foods'[i].nutritionScore == foods[i].nutritionScore
    requires forall k :: 0 <= k < |promotionList'| ==> promotionList'[k] < |foods|
    ensures CatalogOk(users', foods', loggedUser, adj, tree, cuisines, promotionList', popularDishes)
  {
    FoodBagAgrees(foods, foods');
  }

  /** Attaching an offer to a food and queueing it for the offer board keeps the invariant. */
  lemma PromoteKeepsCatalog(users: seq<User>, foods: seq<Food>, loggedUser: Option<nat>,
                            adj: map<Vertex, seq<Vertex>>, tree: NutritionIndex.NutritionTree,
                            cuisines: map<string, seq<nat>>, promotionList: seq<nat>, popularDishes: seq<Tally>,
                            j: nat, offer: string)
    requires CatalogOk(users, foods, loggedUser, adj, tree, cuisines, promotionList, popularDishes)
    requires j < |foods|
    ensures CatalogOk(users, foods[j := foods[j].(promotion := Some(offer))], loggedUser, adj, tree, cuisines,
                      promotionList + [j], popularDishes)
  {
    RetouchKeepsCatalog(users, foods, loggedUser, adj, tree, cuisines, promotionList, popularDishes,
                        users, foods[j := foods[j].(promotion := Some(offer))], promotionList + [j]);
  }

  /** Recording a user's rating, and setting it on at most one food, keeps the invariant. */
  lemma RateKeepsCatalog(users: seq<User>, foods: seq<Food>, loggedUser: Option<nat>,
                         adj: map<Vertex, seq<Vertex>>, tree: NutritionIndex.NutritionTree,
                         cuisines: map<string, seq<nat>>, promotionList: seq<nat>, popularDishes: seq<Tally>,
                         u: nat, dishName: string, rating: int, hit: Option<nat>)
    requires CatalogOk(users, foods, loggedUser, adj, tree, cuisines, promotionList, popularDishes)
    requires u < |users| && (hit.Some? ==> hit.value < |foods|)
    ensures CatalogOk(users[u := users[u].(ratings := users[u].ratings[dishName := rating])],
                      match hit
                      case None => foods
                      case Some(h) => foods[h := foods[h].(rating := rating)],
                      loggedUser, adj, tree, cuisines, promotionList, popularDishes)
  {
    var users' := users[u := users[u].(ratings := users[u].ratings[dishName := rating])];
    var foods' := match hit
                  case None => foods
                  case Some(h) => foods[h := foods[h].(rating := rating)];
    RetouchKeepsCatalog(users, foods, loggedUser, adj, tree, cuisines, promotionList, popularDishes,
                        users', foods', promotionList);
  }

  /** An order keeps the invariant. */
  lemma OrderKeepsCatalog(users: seq<User>, foods: seq<Food>, loggedUser: Option<nat>,
                          adj: map<Vertex, seq<Vertex>>, tree: NutritionIndex.NutritionTree,
                          cuisines: map<string, seq<nat>>, promotionList: seq<nat>, popularDishes: seq<Tally>,
                          u: nat, j: nat, user: User, quantity: int)
    requires CatalogOk(users, foods, loggedUser, adj, tree, cuisines, promotionList, popularDishes)
    requires u < |users| && j < |foods|
    ensures UserV(u) in adj && FoodV(j) in adj
    ensures CatalogOk(users[u := user], foods, loggedUser, Relations.Link(adj, UserV(u), FoodV(j)), tree,
                      cuisines, promotionList, AddQuantity(popularDishes, foods[j].name, quantity))
  {
    GraphOkLink(adj, |users|, |foods|, u, j);
    AddQuantityKeepsDistinct(popularDishes, foods[j].name, quantity);
  }

  /** How `login_user` ended; a failed login exits the program in Python and changes nothing here. */
  datatype LoginOutcome = LoggedIn | WrongPassword | UnknownUser

  /** Every user is a vertex whose edges lead to foods of the catalogue. */
  ghost predicate OrdersOk(adj: map<Vertex, seq<Vertex>>, userCount: nat, foodCount: nat)
  {
    forall i :: 0 <= i < userCount ==> UserV(i) in adj && FoodNeighbours(adj[UserV(i)], foodCount)
  }

  ghost predicate FoodNeighbours(ns: seq<Vertex>, foodCount: nat)
  {
    forall k :: 0 <= k < |ns| ==> ns[k].FoodV? && ns[k].food < foodCount
  }

  lemma GraphOkOrders(adj: map<Vertex, seq<Vertex>>, userCount: nat, foodCount: nat)
    requires GraphOk(adj, userCount, foodCount)
    ensures OrdersOk(adj, userCount, foodCount)
  {
    forall i, k | 0 <= i < userCount && 0 <= k < |adj[UserV(i)]|
      ensures adj[UserV(i)][k].FoodV? && adj[UserV(i)][k].food < foodCount
    {
      assert IsHandle(UserV(i), userCount, foodCount);
      assert adj[UserV(i)][k] in adj[UserV(i)];
    }
  }

  /** The names of the foods a user's edges lead to, in edge order. */
  function NeighbourNames(ns: seq<Vertex>, foods: seq<Food>): (r: seq<string>)
    requires FoodNeighbours(ns, |foods|)
    ensures |r| == |ns| && forall k :: 0 <= k < |ns| ==> r[k] == foods[ns[k].food].name
  {
    seq(|ns|, k requires 0 <= k < |ns| && FoodNeighbours(ns, |foods|) => foods[ns[k].food].name)
  }

  /** The names ordered by the users before `k`, the user `u` left out, user by user. */
  function OthersNames(adj: map<Vertex, seq<Vertex>>, userCount: nat, u: nat, foods: seq<Food>, k: nat): seq<string>
    requires OrdersOk(adj, userCount, |foods|) && k <= userCount
  {
    if k == 0 then []
    else OthersNames(adj, userCount, u, foods, k - 1)
         + (if k - 1 == u then [] else NeighbourNames(adj[UserV(k - 1)], foods))
  }

  /** A name is gathered from the other users exactly when one of them ordered a food of that name. */
  lemma {:induction false} OthersNamesMembers(adj: map<Vertex, seq<Vertex>>, userCount: nat, u: nat, foods: seq<Food>, k: nat)
    requires OrdersOk(adj, userCount, |foods|) && k <= userCount
    ensures forall n :: n in OthersNames(adj, userCount, u, foods, k) <==>
              exists i :: 0 <= i < k && i != u && n in NeighbourNames(adj[UserV(i)], foods)
  {
    if k > 0 {
      OthersNamesMembers(adj, userCount, u, foods, k - 1);
    }
  }

  /** The first name of a list survives deduplication in front. */
  lemma {:induction false} DedupFirst(s: seq<string>)
    requires s != []
    ensures Dedup(s) != [] && Dedup(s)[0] == s[0]
  {
    if |s| > 1 {
      var init := s[..|s| - 1];
      DedupFirst(init);
    }
  }

  /**
   * `personalized_recommendations` for the logged-in user `u`, with the clock
   * read passed in: the user's own orders, else what the other users ordered,
   * each without repeats and cut to five, else the time-based suggestions.
   */
  function Personalized(adj: map<Vertex, seq<Vertex>>, userCount: nat, u: nat, foods: seq<Food>,
                        hour: int, weekday: int): seq<string>
    requires OrdersOk(adj, userCount, |foods|) && u < userCount
  {
    var own := Dedup(NeighbourNames(adj[UserV(u)], foods));
    if own != [] then Take(own, MaxRecommendations)
    else
      var others := Dedup(OthersNames(adj, userCount, u, foods, userCount));
      if others != [] then Take(others, MaxRecommendations)
      else TimeBasedSuggestions(foods, hour, weekday)
  }

  /**
   * A user with orders gets at most five distinct names of dishes they
   * ordered, their first order first, and all of them when fewer than five.
   * A user without orders gets the other users' dishes in the same way, and
   * only when nobody has ordered anything the time-based suggestions.
   */
  lemma PersonalizedShape(adj: map<Vertex, seq<Vertex>>, userCount: nat, u: nat, foods: seq<Food>,
                          hour: int, weekday: int)
    requires OrdersOk(adj, userCount, |foods|) && u < userCount
    ensures var r := Personalized(adj, userCount, u, foods, hour, weekday);
      var own := NeighbourNames(adj[UserV(u)], foods);
      && (own != [] ==>
            && 0 < |r| <= MaxRecommendations && r[0] == own[0]
            && (forall i, j :: 0 <= i < j < |r| ==> r[i] != r[j])
            && (forall n :: n in r ==> n in own)
            && (|r| < MaxRecommendations ==> forall n :: n in own ==> n in r))
      && (own == [] && (exists i :: 0 <= i < userCount && i != u && adj[UserV(i)] != []) ==>
            && 0 < |r| <= MaxRecommendations
            && (forall i, j :: 0 <= i < j < |r| ==> r[i] != r[j])
            && (forall n :: n in r ==>
                  exists i :: 0 <= i < userCount && i != u && n in NeighbourNames(adj[UserV(i)], foods))
            && (|r| < MaxRecommendations ==>
                  forall i, n :: 0 <= i < userCount && i != u && n in NeighbourNames(adj[UserV(i)], foods) ==> n in r))
      && ((forall i :: 0 <= i < userCount ==> adj[UserV(i)] == []) ==> r == TimeBasedSuggestions(foods, hour, weekday))
  {
    var own := NeighbourNames(adj[UserV(u)], foods);
    var r := Personalized(adj, userCount, u, foods, hour, weekday);
    OthersNamesMembers(adj, userCount, u, foods, userCount);
    if own != [] {
      DedupFirst(own);
      TakeKeepsShape(Dedup(own));
    } else {
      var others := OthersNames(adj, userCount, u, foods, userCount);
      if i :| 0 <= i < userCount && i != u && adj[UserV(i)] != [] {
        assert NeighbourNames(adj[UserV(i)], foods)[0] in others;
        TakeKeepsShape(Dedup(others));
      }
      if others != [] {
        assert others[0] in others;
        var i :| 0 <= i < userCount && i != u && others[0] in NeighbourNames(adj[UserV(i)], foods);
        assert adj[UserV(i)] != [];
      }
    }
  }

  /**
   * The order of the personalised list: the names come in the order in which
   * they were first ordered (the user's own orders, else the other users'
   * orders taken user by user), and every name left out was first ordered
   * after all of those listed.
   */
  lemma PersonalizedOrder(adj: map<Vertex, seq<Vertex>>, userCount: nat, u: nat, foods: seq<Food>,
                          hour: int, weekday: int)
    requires OrdersOk(adj, userCount, |foods|) && u < userCount
    ensures var r := Personalized(adj, userCount, u, foods, hour, weekday);
      var own := NeighbourNames(adj[UserV(u)], foods);
      own != [] ==>
        && (forall n :: n in r ==> n in own)
        && (forall i, j :: 0 <= i < j < |r| ==> FirstIndex(own, r[i]) < FirstIndex(own, r[j]))
        && (forall n :: n in own && n !in r ==> forall k :: 0 <= k < |r| ==> FirstIndex(own, r[k]) < FirstIndex(own, n))
    ensures var r := Personalized(adj, userCount, u, foods, hour, weekday);
      var others := OthersNames(adj, userCount, u, foods, userCount);
      NeighbourNames(adj[UserV(u)], foods) == [] && others != [] ==>
        && (forall n :: n in r ==> n in others)
        && (forall i, j :: 0 <= i < j < |r| ==> FirstIndex(others, r[i]) < FirstIndex(others, r[j]))
        && (forall n :: n in others && n !in r ==> forall k :: 0 <= k < |r| ==> FirstIndex(others, r[k]) < FirstIndex(others, n))
  {
    var own := NeighbourNames(adj[UserV(u)], foods);
    var others := OthersNames(adj, userCount, u, foods, userCount);
    if own != [] {
      DedupFirst(own);
    }
    if others != [] {
      DedupFirst(others);
    }
    TakeDedupFirstSeen(own, MaxRecommendations);
    TakeDedupFirstSeen(others, MaxRecommendations);
  }

  /** Cutting a list without repeats to five keeps it without repeats, and keeps everything when it is short. */
  lemma TakeKeepsShape(s: seq<string>)
    requires forall i, j :: 0 <= i < j < |s| ==> s[i] != s[j]
    ensures var r := Take(s, MaxRecommendations);
      && (forall i, j :: 0 <= i < j < |r| ==> r[i] != r[j])
      && (forall n :: n in r ==> n in s)
      && (|r| < MaxRecommendations ==> r == s)
      && (s != [] ==> r != [] && r[0] == s[0])
  {
  }

  /** Python's "append when not yet present" over a run of names. */
  method AppendNew(acc: seq<string>, ghost seen: seq<string>, more: seq<string>) returns (r: seq<string>)
    requires acc == Dedup(seen)
    ensures r == Dedup(seen + more)
  {
    r := acc;
    assert seen + more[..0] == seen;
    for i := 0 to |more|
      invariant r == Dedup(seen + more[..i])
    {
      assert seen + more[..i + 1] == (seen + more[..i]) + [more[i]];
      DedupExtends(seen + more[..i], more[i]);
      if more[i] !in r {
        r := r + [more[i]];
      }
    }
    assert more[..|more|] == more;
  }

  /** The loops of `personalized_recommendations`. */
  method CollectPersonalized(adj: map<Vertex, seq<Vertex>>, userCount: nat, u: nat, foods: seq<Food>,
                             hour: int, weekday: int) returns (names: seq<string>)
    requires OrdersOk(adj, userCount, |foods|) && u < userCount
    ensures names == Personalized(adj, userCount, u, foods, hour, weekday)
  {
    var own := AppendNew([], [], NeighbourNames(adj[UserV(u)], foods));
    assert [] + NeighbourNames(adj[UserV(u)], foods) == NeighbourNames(adj[UserV(u)], foods);
    if own != [] {
      return Take(own, MaxRecommendations);
    }
    var others := CollectFromOthers(adj, userCount, u, foods);
    if others != [] {
      return Take(others, MaxRecommendations);
    }
    return TimeBasedSuggestions(foods, hour, weekday);
  }

  /** The loop of `personalized_recommendations` over the other users' orders. */
  method CollectFromOthers(adj: map<Vertex, seq<Vertex>>, userCount: nat, u: nat, foods: seq<Food>)
    returns (others: seq<string>)
    requires OrdersOk(adj, userCount, |foods|)
    ensures others == Dedup(OthersNames(adj, userCount, u, foods, userCount))
  {
    others := [];
    ghost var seen: seq<string> := [];
    for i := 0 to userCount
      invariant seen == OthersNames(adj, userCount, u, foods, i)
      invariant others == Dedup(seen)
    {
      if i != u {
        var orders := NeighbourNames(adj[UserV(i)], foods);
        others := AppendNew(others, seen, orders);
        seen := seen + orders;
      } else {
        assert seen + [] == seen;
      }
    }
  }

  /** The sum of the nutrition scores of the foods a user ordered. */
  function ScoreSum(ns: seq<Vertex>, foods: seq<Food>): real
    requires FoodNeighbours(ns, |foods|)
  {
    if ns == [] then 0.0 else ScoreSum(ns[..|ns| - 1], foods) + foods[ns[|ns| - 1].food].nutritionScore
  }

  /** When every ordered food scores between `lo` and `hi`, so does their average. */
  lemma {:induction false} ScoreSumBounds(ns: seq<Vertex>, foods: seq<Food>, lo: real, hi: real)
    requires FoodNeighbours(ns, |foods|)
    requires forall k :: 0 <= k < |ns| ==> lo <= foods[ns[k].food].nutritionScore <= hi
    ensures lo * (|ns| as real) <= ScoreSum(ns, foods) <= hi * (|ns| as real)
  {
    if ns != [] {
      ScoreSumBounds(ns[..|ns| - 1], foods, lo, hi);
    }
  }

  /** The summing loop of `recommend_based_on_nutrition`. */
  method SumScores(ns: seq<Vertex>, foods: seq<Food>) returns (total: real, count: nat)
    requires FoodNeighbours(ns, |foods|)
    ensures total == ScoreSum(ns, foods) && count == |ns|
  {
    total, count := 0.0, 0;
    for i := 0 to |ns|
      invariant total == ScoreSum(ns[..i], foods) && count == i
    {
      assert ns[..i + 1][..i] == ns[..i];
      total := total + foods[ns[i].food].nutritionScore;
      count := count + 1;
    }
    assert ns[..|ns|] == ns;
  }

  lemma {:induction false} FoodBagSize(foods: seq<Food>)
    ensures |FoodBag(foods)| == |foods|
  {
    if foods != [] {
      FoodBagSize(foods[..|foods| - 1]);
    }
  }

  /** A nutrition tree in step with the catalogue lists exactly the catalogue's foods. */
  lemma TreeHoldsCatalogue(tree: NutritionIndex.NutritionTree, foods: seq<Food>)
    requires NutritionOk(tree, foods)
    ensures forall e :: e in NutritionIndex.InOrder(tree) <==> exists i :: 0 <= i < |foods| && EntryOf(foods[i]) == e
    ensures |NutritionIndex.InOrder(tree)| == |foods|
  {
    var listing := NutritionIndex.InOrder(tree);
    TreeBagIsInOrder(tree);
    FoodBagSize(foods);
    assert multiset(listing) == FoodBag(foods);
    assert |listing| == |multiset(listing)|;
    forall e
      ensures e in listing <==> exists i :: 0 <= i < |foods| && EntryOf(foods[i]) == e
    {
      FoodBagMembers(foods, e);
      assert e in listing <==> e in multiset(listing);
    }
  }

  /**
   * The nutrition-based recommendations name exactly the catalogue's foods
   * whose score lies within the tolerance of the average, and no more names
   * than there are foods.
   */
  lemma NutritionRecommendationsMatch(tree: NutritionIndex.NutritionTree, foods: seq<Food>, avgScore: real, tolerance: real)
    requires NutritionOk(tree, foods)
    ensures forall n :: n in NutritionIndex.Recommendations(tree, avgScore, tolerance) <==>
              exists i :: 0 <= i < |foods| && foods[i].name == n && NutritionIndex.InRange(EntryOf(foods[i]), avgScore, tolerance)
    ensures |NutritionIndex.Recommendations(tree, avgScore, tolerance)| <= |foods|
  {
    NutritionIndex.RecommendationsFollowInOrder(tree, avgScore, tolerance);
    NutritionIndex.NamesInRangeMembers(NutritionIndex.InOrder(tree), avgScore, tolerance);
    TreeHoldsCatalogue(tree, foods);
    forall n | n in NutritionIndex.Recommendations(tree, avgScore, tolerance)
      ensures exists i :: 0 <= i < |foods| && foods[i].name == n && NutritionIndex.InRange(EntryOf(foods[i]), avgScore, tolerance)
    {
      var e :| e in NutritionIndex.InOrder(tree) && NutritionIndex.InRange(e, avgScore, tolerance) && e.name == n;
      var i :| 0 <= i < |foods| && EntryOf(foods[i]) == e;
    }
    forall i | 0 <= i < |foods| && NutritionIndex.InRange(EntryOf(foods[i]), avgScore, tolerance)
      ensures foods[i].name in NutritionIndex.Recommendations(tree, avgScore, tolerance)
    {
      assert EntryOf(foods[i]) in NutritionIndex.InOrder(tree);
    }
  }

  /**
   * `get_food_based_on_nutrition` names a food with the highest score not
   * above the asked one (one with exactly that score when there is one), and
   * answers nothing exactly when every food scores above it.
   */
  lemma GetFoodMatches(tree: NutritionIndex.NutritionTree, foods: seq<Food>, score: real)
    requires NutritionOk(tree, foods)
    ensures NutritionIndex.GetFood(tree, score) == None <==> forall i :: 0 <= i < |foods| ==> foods[i].nutritionScore > score
    ensures NutritionIndex.GetFood(tree, score).Some? ==>
              exists i :: && 0 <= i < |foods| && Some(foods[i].name) == NutritionIndex.GetFood(tree, score)
                          && foods[i].nutritionScore <= score
                          && (forall k :: 0 <= k < |foods| && foods[k].nutritionScore <= score ==>
                                foods[k].nutritionScore <= foods[i].nutritionScore)
  {
    TreeHoldsCatalogue(tree, foods);
    var t := tree;
    if NutritionIndex.HasScore(t, score) {
      NutritionIndex.GetFoodExact(t, score);
      var e :| e in NutritionIndex.InOrder(t) && e.score == score && NutritionIndex.GetFood(t, score) == Some(e.name);
      var i :| 0 <= i < |foods| && EntryOf(foods[i]) == e;
      assert foods[i].nutritionScore <= score;
    } else {
      NutritionIndex.GetFoodFloor(t, score);
      forall k | 0 <= k < |foods|
        ensures foods[k].nutritionScore != score
      {
        assert EntryOf(foods[k]) in NutritionIndex.InOrder(t);
      }
      if NutritionIndex.GetFood(t, score).Some? {
        var e :| NutritionIndex.IsFloor(t, score, e) && NutritionIndex.GetFood(t, score) == Some(e.name);
        var i :| 0 <= i < |foods| && EntryOf(foods[i]) == e;
        forall k | 0 <= k < |foods| && foods[k].nutritionScore <= score
          ensures foods[k].nutritionScore <= foods[i].nutritionScore
        {
          assert EntryOf(foods[k]) in NutritionIndex.InOrder(t);
        }
      } else {
        forall k | 0 <= k < |foods|
          ensures foods[k].nutritionScore > score
        {
          assert EntryOf(foods[k]) in NutritionIndex.InOrder(t);
        }
      }
    }
  }

  /** The pairing loop of `pair_recommendations`. */
  method CollectPairings(foods: seq<Food>, mainName: string, main: Food) returns (names: seq<string>)
    ensures names == Pairings(foods, mainName, main)
  {
    names := [];
    assert foods[0..] == foods;
    for i := 0 to |foods|
      invariant names + Pairings(foods[i..], mainName, main) == Pairings(foods, mainName, main)
    {
      assert foods[i..][1..] == foods[i + 1..];
      if Pairs(foods[i], mainName, main) {
        names := names + [foods[i].name];
      }
    }
  }

  /** The heap loops of `cuisine_based_recommendations`: every dish in, then out highest rating first. */
  method RankByRating(dishes: seq<Food>) returns (ranked: seq<Food>)
    ensures multiset(ranked) == multiset(dishes)
    ensures RatingDescending(ranked)
  {
    var heap := new Heap.MaxHeap();
    for i := 0 to |dishes|
      invariant heap.Valid() && multiset(heap.heap) == multiset(dishes[..i])
    {
      assert dishes[..i + 1] == dishes[..i] + [dishes[i]];
      heap.Push(dishes[i]);
    }
    assert dishes[..|dishes|] == dishes;
    ranked := [];
    while |heap.heap| > 0
      invariant heap.Valid()
      invariant multiset(ranked) + multiset(heap.heap) == multiset(dishes)
      invariant RatingDescending(ranked)
      invariant forall x, y :: x in ranked && y in heap.heap ==> x.rating >= y.rating
      decreases |heap.heap|
    {
      ghost var before := heap.heap;
      var dish := heap.Pop();
      assert multiset(heap.heap) + multiset{dish.value} == multiset(before);
      forall y | y in heap.heap
        ensures y in before
      {
        assert y in multiset(heap.heap);
        assert y in multiset(before);
      }
      ranked := ranked + [dish.value];
    }
  }

  /** `offer_recommendation` builds a fresh offer tree from the promoted foods, in promotion order. */
  function OfferBoard(promoted: seq<Food>): OfferIndex.OfferTree
  {
    if promoted == [] then OfferIndex.Leaf
    else OfferIndex.Insert(OfferBoard(promoted[..|promoted| - 1]), promoted[|promoted| - 1])
  }

  /** The insertion loop of `offer_recommendation`. */
  method BuildBoard(promoted: seq<Food>) returns (board: OfferIndex.OfferTree)
    ensures board == OfferBoard(promoted)
  {
    board := OfferIndex.Leaf;
    for i := 0 to |promoted|
      invariant board == OfferBoard(promoted[..i])
    {
      assert promoted[..i + 1][..i] == promoted[..i];
      board := OfferIndex.Insert(board, promoted[i]);
    }
    assert promoted[..|promoted|] == promoted;
  }

  lemma {:induction false} OfferBoardIsSearchTree(promoted: seq<Food>)
    ensures OfferIndex.IsSearchTree(OfferBoard(promoted))
  {
    if promoted != [] {
      OfferBoardIsSearchTree(promoted[..|promoted| - 1]);
      OfferIndex.InsertKeepsOrder(OfferBoard(promoted[..|promoted| - 1]), promoted[|promoted| - 1]);
    }
  }

  /** The offer board holds every promoted name. */
  lemma {:induction false} OfferBoardNames(promoted: seq<Food>)
    ensures forall g :: g in promoted ==> g.name in OfferIndex.Names(OfferBoard(promoted))
  {
    if promoted != [] {
      var init, last := promoted[..|promoted| - 1], promoted[|promoted| - 1];
      OfferBoardNames(init);
      OfferIndex.InsertNames(OfferBoard(init), last);
      forall g | g in promoted && g != last
        ensures g in init
      {
        var k :| 0 <= k < |promoted| && promoted[k] == g;
        assert init[k] == g;
      }
    }
  }

  /** Every food the offer board lists is a promoted one. */
  lemma {:induction false} OfferBoardListsPromoted(promoted: seq<Food>)
    ensures forall f :: f in OfferIndex.InOrder(OfferBoard(promoted)) ==> f in promoted
  {
    if promoted != [] {
      var init, last := promoted[..|promoted| - 1], promoted[|promoted| - 1];
      OfferBoardListsPromoted(init);
      OfferIndex.InsertListsOnlyNew(OfferBoard(init), last);
      forall f | f in OfferIndex.InOrder(OfferBoard(promoted)) && f != last
        ensures f in promoted
      {
        var k :| 0 <= k < |init| && init[k] == f;
        assert promoted[k] == f;
      }
    }
  }

  /** With distinct dish names, two promoted foods of the same name are one food. */
  lemma PromotedByName(promotionList: seq<nat>, foods: seq<Food>, f: Food, g: Food)
    requires UniqueNames(foods)
    requires forall k :: 0 <= k < |promotionList| ==> promotionList[k] < |foods|
    requires f in FoodsAt(promotionList, foods) && g in FoodsAt(promotionList, foods) && f.name == g.name
    ensures f == g
  {
    var promoted := FoodsAt(promotionList, foods);
    var a :| 0 <= a < |promoted| && promoted[a] == f;
    var b :| 0 <= b < |promoted| && promoted[b] == g;
    assert foods[promotionList[a]].name == foods[promotionList[b]].name;
  }

  /**
   * With distinct dish names, the offers listed are exactly the promoted
   * foods, each once, in strictly ascending name order.
   */
  lemma OfferBoardListsPromotions(promotionList: seq<nat>, foods: seq<Food>)
    requires UniqueNames(foods)
    requires forall k :: 0 <= k < |promotionList| ==> promotionList[k] < |foods|
    ensures var listing := OfferIndex.InOrder(OfferBoard(FoodsAt(promotionList, foods)));
      && (forall i, j :: 0 <= i < j < |listing| ==> OfferIndex.LexLess(listing[i].name, listing[j].name))
      && (forall f :: f in listing <==> f in FoodsAt(promotionList, foods))
  {
    var promoted := FoodsAt(promotionList, foods);
    var board := OfferBoard(promoted);
    OfferBoardIsSearchTree(promoted);
    OfferIndex.InOrderAscending(board);
    OfferBoardListsPromoted(promoted);
    OfferBoardNames(promoted);
    OfferIndex.InOrderNames(board);
    forall g | g in promoted
      ensures g in OfferIndex.InOrder(board)
    {
      assert g.name in OfferIndex.Names(board);
      var f :| f in OfferIndex.InOrder(board) && f.name == g.name;
      PromotedByName(promotionList, foods, f, g);
    }
  }

  class RecommendationSystem {
    var users: seq<User>
    var foodItems: seq<Food>
    var loggedUser: Option<nat>
    const graph: Relations.Graph<Vertex>
    var nutritionTree: NutritionIndex.NutritionTree
    // `popular_dishes`, in the dictionary's insertion order
    var popularDishes: seq<Tally>
    const cuisineTrie: CuisineIndex.CuisineTrie
    var cuisines: map<string, seq<nat>>
    const newArrivals: Recency.DoublyLinkedList
    var promotionList: seq<nat>
    ghost var Repr: set<object>

    /** The objects the catalogue owns are separate and keep their own invariants. */
    ghost predicate Parts()
      reads cuisineTrie, newArrivals, newArrivals.Repr
    {
      && this !in newArrivals.Repr && graph !in newArrivals.Repr && cuisineTrie !in newArrivals.Repr
      && cuisineTrie.Valid() && newArrivals.Valid() && newArrivals.maxSize == NewArrivalsCapacity
    }

    ghost predicate Valid()
      reads this, Repr
    {
      && this in Repr && newArrivals in Repr
      && Repr == {this, graph, cuisineTrie} + newArrivals.Repr
      && Parts()
      && cuisines.Keys == cuisineTrie.Words
      && CatalogOk(users, foodItems, loggedUser, graph.adjList, nutritionTree, cuisines, promotionList, popularDishes)
    }

    constructor ()
      ensures Valid()
      ensures users == [] && foodItems == [] && loggedUser == None && popularDishes == []
      ensures cuisines == map[] && cuisineTrie.Words == {} && newArrivals.Contents == [] && promotionList == []
    {
      users, foodItems, loggedUser := [], [], None;
      graph := new Relations.Graph();
      nutritionTree := NutritionIndex.Empty;
      popularDishes := [];
      cuisineTrie := new CuisineIndex.CuisineTrie();
      cuisines := map[];
      newArrivals := new Recency.DoublyLinkedList(NewArrivalsCapacity);
      promotionList := [];
      new;
      Repr := {this, graph, cuisineTrie} + newArrivals.Repr;
    }

    /**
     * `addUser`.  Its duplicate check compares user objects with a string and
     * never matches, so a user is always added, with "None" as allergens.
     */
    method AddUser(name: string, password: string, address: string, favCuisine: string, dietaryPref: string)
      requires Valid()
      modifies this, graph
      ensures Valid() && Repr == old(Repr)
      ensures users == old(users) + [User(name, password, address, favCuisine, dietaryPref, "None", [], map[])]
      ensures graph.adjList == old(graph.adjList)[UserV(old(|users|)) := []]
      ensures foodItems == old(foodItems) && loggedUser == old(loggedUser) && cuisines == old(cuisines)
      ensures nutritionTree == old(nutritionTree) && popularDishes == old(popularDishes)
      ensures promotionList == old(promotionList)
    {
      var handle := UserV(|users|);
      GraphOkNewVertex(graph.adjList, |users|, |foodItems|, handle);
      users := users + [User(name, password, address, favCuisine, dietaryPref, "None", [], map[])];
      var _ := graph.AddVertex(handle);
    }

    /** `add_cuisine`: registers the name and starts (or restarts) its empty dish list. */
    method AddCuisine(cuisine: string)
      requires Valid()
      modifies this, cuisineTrie
      ensures Valid() && Repr == old(Repr)
      ensures cuisineTrie.Words == old(cuisineTrie.Words) + {cuisine}
      ensures cuisines == old(cuisines)[cuisine := []]
      ensures users == old(users) && foodItems == old(foodItems) && loggedUser == old(loggedUser)
      ensures nutritionTree == old(nutritionTree) && popularDishes == old(popularDishes)
      ensures promotionList == old(promotionList)
    {
      cuisineTrie.Insert(cuisine);
      cuisines := cuisines[cuisine := []];
    }

    /** `login_user` with the typed name and password as parameters. */
    method LoginUser(name: string, password: string) returns (outcome: LoginOutcome)
      requires Valid()
      modifies this
      ensures Valid() && Repr == old(Repr)
      ensures outcome == UnknownUser <==> FirstUserNamed(users, name).None?
      ensures outcome != UnknownUser ==>
                (outcome == LoggedIn <==> users[FirstUserNamed(users, name).value].password == password)
      ensures loggedUser == if outcome == LoggedIn then FirstUserNamed(users, name) else old(loggedUser)
      ensures users == old(users) && foodItems == old(foodItems) && cuisines == old(cuisines)
      ensures nutritionTree == old(nutritionTree) && popularDishes == old(popularDishes)
      ensures promotionList == old(promotionList)
    {
      var found := FindUser(users, name);
      match found
      case None =>
        outcome := UnknownUser;
      case Some(i) =>
        if password == users[i].password {
          loggedUser := found;
          outcome := LoggedIn;
        } else {
          outcome := WrongPassword;
        }
    }

    /** `logout`. */
    method Logout()
      requires Valid()
      modifies this
      ensures Valid() && Repr == old(Repr)
      ensures loggedUser == None
      ensures users == old(users) && foodItems == old(foodItems) && cuisines == old(cuisines)
      ensures nutritionTree == old(nutritionTree) && popularDishes == old(popularDishes)
      ensures promotionList == old(promotionList)
    {
      loggedUser := None;
    }
    /**
     * `addFood`: a name already in the catalogue changes nothing.  Otherwise
     * the food is scored and appended to the catalogue, the graph and the
     * nutrition tree; only when its cuisine is registered is it also stamped,
     * listed under its cuisine and announced as a new arrival.
     */
    method AddFood(name: string, cuisineType: string, calories: int, proteins: int, fats: int, carbs: int,
                   vitamins: seq<string>, minerals: seq<string>, dietaryRestrictions: string,
                   allergens: seq<string>, mealType: string, flavorProfile: string) returns (added: bool)
      requires Valid()
      modifies Repr
      ensures Valid() && fresh(Repr - old(Repr))
      ensures added <==> FirstFoodNamed(old(foodItems), name).None?
      ensures !added ==> foodItems == old(foodItems) && cuisines == old(cuisines) && graph.adjList == old(graph.adjList)
                         && nutritionTree == old(nutritionTree) && newArrivals.Contents == old(newArrivals.Contents)
      ensures added ==>
        var registered := cuisineType in old(cuisines);
        var food := NewFood(name, cuisineType, calories, NutritionScore(calories, proteins, fats, carbs, vitamins, minerals),
                            dietaryRestrictions, allergens, mealType, flavorProfile,
                            if registered then |old(cuisines)[cuisineType]| else 0);
        && foodItems == old(foodItems) + [food]
        && cuisines == (if registered then old(cuisines)[cuisineType := old(cuisines)[cuisineType] + [|old(foodItems)|]]
                        else old(cuisines))
        && newArrivals.Contents == (if !registered then old(newArrivals.Contents)
                                    else if |old(newArrivals.Contents)| == NewArrivalsCapacity
                                    then old(newArrivals.Contents)[1..] + [name]
                                    else old(newArrivals.Contents) + [name])
        && graph.adjList == old(graph.adjList)[FoodV(|old(foodItems)|) := []]
        && nutritionTree == NutritionIndex.Insert(old(nutritionTree), EntryOf(food))
      ensures users == old(users) && loggedUser == old(loggedUser) && popularDishes == old(popularDishes)
      ensures promotionList == old(promotionList) && cuisineTrie.Words == old(cuisineTrie.Words)
    {
      var existing := FindFood(foodItems, name);
      if existing.Some? {
        return false;
      }
      var score := NutritionScore(calories, proteins, fats, carbs, vitamins, minerals);
      var registered := cuisineType in cuisines;
      var stamp := if registered then |cuisines[cuisineType]| else 0;
      var food := NewFood(name, cuisineType, calories, score, dietaryRestrictions, allergens, mealType, flavorProfile, stamp);
      if registered {
        NoteArrival(name);
      }
      StoreFood(food);
      return true;
    }

    /** The new-arrivals half of `addFood`: the list of recent names takes one more. */
    method NoteArrival(name: string)
      requires Valid()
      modifies Repr
      ensures Valid() && fresh(Repr - old(Repr))
      ensures newArrivals.Contents == (if |old(newArrivals.Contents)| == NewArrivalsCapacity
                                       then old(newArrivals.Contents)[1..] + [name]
                                       else old(newArrivals.Contents) + [name])
      ensures users == old(users) && foodItems == old(foodItems) && loggedUser == old(loggedUser)
      ensures cuisines == old(cuisines) && graph.adjList == old(graph.adjList) && nutritionTree == old(nutritionTree)
      ensures popularDishes == old(popularDishes) && promotionList == old(promotionList)
      ensures cuisineTrie.Words == old(cuisineTrie.Words)
    {
      newArrivals.Append(name);
      Repr := {this, graph, cuisineTrie} + newArrivals.Repr;
    }

    /**
     * The catalogue half of `addFood`: the food joins the catalogue, the graph
     * and the nutrition tree, and its cuisine's list when that is registered.
     */
    method StoreFood(food: Food)
      requires Valid()
      requires forall f :: f in foodItems ==> f.name != food.name
      requires food.cuisineType in cuisines ==> food.timestamp == |cuisines[food.cuisineType]|
      modifies this, graph
      ensures Valid() && Repr == old(Repr)
      ensures foodItems == old(foodItems) + [food]
      ensures cuisines == (if food.cuisineType in old(cuisines)
                           then old(cuisines)[food.cuisineType := old(cuisines)[food.cuisineType] + [|old(foodItems)|]]
                           else old(cuisines))
      ensures graph.adjList == old(graph.adjList)[FoodV(|old(foodItems)|) := []]
      ensures nutritionTree == NutritionIndex.Insert(old(nutritionTree), EntryOf(food))
      ensures users == old(users) && loggedUser == old(loggedUser) && popularDishes == old(popularDishes)
      ensures promotionList == old(promotionList)
    {
      var handle := |foodItems|;
      AddFoodKeepsCatalog(users, foodItems, loggedUser, graph.adjList, nutritionTree, cuisines, promotionList,
                          popularDishes, food);
      var cuisines' := if food.cuisineType in cuisines
                       then cuisines[food.cuisineType := cuisines[food.cuisineType] + [handle]]
                       else cuisines;
      ghost var adj' := graph.adjList[FoodV(handle) := []];
      var _ := graph.AddVertex(FoodV(handle));
      assert graph.adjList == adj';
      cuisines, foodItems, nutritionTree := cuisines', foodItems + [food], NutritionIndex.Insert(nutritionTree, EntryOf(food));
      assert CatalogOk(users, foodItems, loggedUser, graph.adjList, nutritionTree, cuisines, promotionList, popularDishes);
    }

    /**
     * `order_food`: with a logged-in user and a known dish, links user and
     * dish in the graph, appends the order to the user's history and adds the
     * quantity to the dish's counter; otherwise nothing changes.
     */
    method OrderFood(foodName: string, quantity: int) returns (ordered: bool)
      requires Valid()
      modifies this, graph
      ensures Valid() && Repr == old(Repr)
      ensures foodItems == old(foodItems) && loggedUser == old(loggedUser) && cuisines == old(cuisines)
      ensures nutritionTree == old(nutritionTree) && promotionList == old(promotionList)
      ensures ordered <==> loggedUser.Some? && FirstFoodNamed(foodItems, foodName).Some?
      ensures !ordered ==> users == old(users) && graph.adjList == old(graph.adjList) && popularDishes == old(popularDishes)
      ensures ordered ==>
        var u := loggedUser.value;
        var j := FirstFoodNamed(foodItems, foodName).value;
        && graph.adjList == Relations.Link(old(graph.adjList), UserV(u), FoodV(j))
        && users == old(users)[u := old(users)[u].(orderHistory := old(users)[u].orderHistory + [Order(foodName, quantity)])]
        && popularDishes == AddQuantity(old(popularDishes), foodName, quantity)
    {
      if loggedUser.None? {
        return false;
      }
      var found := FindFood(foodItems, foodName);
      if found.None? {
        return false;
      }
      var u, j := loggedUser.value, found.value;
      var user := users[u].(orderHistory := users[u].orderHistory + [Order(foodName, quantity)]);
      OrderKeepsCatalog(users, foodItems, loggedUser, graph.adjList, nutritionTree, cuisines, promotionList,
                        popularDishes, u, j, user, quantity);
      var _ := graph.AddEdge(UserV(u), FoodV(j));
      users := users[u := user];
      popularDishes := AddQuantity(popularDishes, foodName, quantity);
      return true;
    }

    /**
     * `rate_dish`: for a registered cuisine, records the rating in the user's
     * ratings (even when the dish is not listed under that cuisine) and sets
     * the rating of the first dish of that name listed under it.  The Python
     * code dereferences the logged-in user here without checking it.
     */
    method RateDish(cuisine: string, dishName: string, rating: int)
      requires Valid()
      requires cuisine in cuisineTrie.Words ==> loggedUser.Some?
      modifies this
      ensures Valid() && Repr == old(Repr)
      ensures loggedUser == old(loggedUser) && cuisines == old(cuisines) && graph.adjList == old(graph.adjList)
      ensures nutritionTree == old(nutritionTree) && popularDishes == old(popularDishes) && promotionList == old(promotionList)
      ensures cuisine !in cuisineTrie.Words ==> users == old(users) && foodItems == old(foodItems)
      ensures cuisine in cuisineTrie.Words ==>
        var listed := FirstListedNamed(cuisines[cuisine], old(foodItems), dishName);
        listed.Some? ==> listed.value < |cuisines[cuisine]|
      ensures cuisine in cuisineTrie.Words ==>
        var u := loggedUser.value;
        && users == old(users)[u := old(users)[u].(ratings := old(users)[u].ratings[dishName := rating])]
        && foodItems == match FirstListedNamed(cuisines[cuisine], old(foodItems), dishName)
                        case None => old(foodItems)
                        case Some(k) => old(foodItems)[cuisines[cuisine][k] := old(foodItems)[cuisines[cuisine][k]].(rating := rating)]
    {
      var known := cuisineTrie.Search(cuisine);
      if !known {
        return;
      }
      var u := loggedUser.value;
      var found := FindListed(cuisines[cuisine], foodItems, dishName);
      var hit := if found.Some? then Some(cuisines[cuisine][found.value]) else None;
      RateKeepsCatalog(users, foodItems, loggedUser, graph.adjList, nutritionTree, cuisines, promotionList,
                       popularDishes, u, dishName, rating, hit);
      users := users[u := users[u].(ratings := users[u].ratings[dishName := rating])];
      if hit.Some? {
        var h := hit.value;
        foodItems := foodItems[h := foodItems[h].(rating := rating)];
      }
    }

    /** `add_offers`: attaches the offer to the first food of that name and queues it for the offer board. */
    method AddOffers(foodName: string, offer: string) returns (found: bool)
      requires Valid()
      modifies this
      ensures Valid() && Repr == old(Repr)
      ensures found <==> FirstFoodNamed(old(foodItems), foodName).Some?
      ensures !found ==> foodItems == old(foodItems) && promotionList == old(promotionList)
      ensures found ==>
        var j := FirstFoodNamed(old(foodItems), foodName).value;
        && foodItems == old(foodItems)[j := old(foodItems)[j].(promotion := Some(offer))]
        && promotionList == old(promotionList) + [j]
      ensures users == old(users) && loggedUser == old(loggedUser) && cuisines == old(cuisines)
      ensures graph.adjList == old(graph.adjList) && nutritionTree == old(nutritionTree)
      ensures popularDishes == old(popularDishes)
    {
      var existing := FindFood(foodItems, foodName);
      if existing.None? {
        return false;
      }
      var j := existing.value;
      PromoteKeepsCatalog(users, foodItems, loggedUser, graph.adjList, nutritionTree, cuisines, promotionList,
                          popularDishes, j, offer);
      foodItems := foodItems[j := foodItems[j].(promotion := Some(offer))];
      promotionList := promotionList + [j];
      return true;
    }

    /** `get_new_arrivals`: the recent names, newest first. */
    method GetNewArrivals() returns (arrivals: seq<string>)
      requires Valid()
      ensures |arrivals| == |newArrivals.Contents| <= NewArrivalsCapacity
      ensures forall k :: 0 <= k < |arrivals| ==> arrivals[k] == newArrivals.Contents[|newArrivals.Contents| - 1 - k]
    {
      if newArrivals.size == 0 {
        return [];
      }
      arrivals := newArrivals.GetNewArrivals();
    }

    /** `pair_recommendations`: nothing without a logged-in user or a known main dish. */
    method PairRecommendations(mainDish: string) returns (names: seq<string>)
      requires Valid()
      ensures loggedUser.None? || FirstFoodNamed(foodItems, mainDish).None? ==> names == []
      ensures loggedUser.Some? && FirstFoodNamed(foodItems, mainDish).Some? ==>
                names == Pairings(foodItems, mainDish, foodItems[FirstFoodNamed(foodItems, mainDish).value])
    {
      if loggedUser.None? {
        return [];
      }
      var found := FindFood(foodItems, mainDish);
      if found.None? {
        return [];
      }
      names := CollectPairings(foodItems, mainDish, foodItems[found.value]);
    }

    /** `cuisine_based_recommendations`: the cuisine's dishes, highest rating first. */
    method CuisineBasedRecommendations(cuisine: string) returns (names: seq<string>)
      requires Valid()
      ensures cuisine !in cuisineTrie.Words || cuisines[cuisine] == [] ==> names == []
      ensures cuisine in cuisineTrie.Words && cuisines[cuisine] != [] ==>
                exists ranked :: && multiset(ranked) == multiset(FoodsAt(cuisines[cuisine], foodItems))
                                 && RatingDescending(ranked) && names == NamesOf(ranked)
    {
      var known := cuisineTrie.Search(cuisine);
      if !known || cuisines[cuisine] == [] {
        return [];
      }
      var ranked := RankByRating(FoodsAt(cuisines[cuisine], foodItems));
      names := NamesOf(ranked);
    }

    /** `personalized_recommendations`, with the clock read passed in. */
    method PersonalizedRecommendations(hour: int, weekday: int) returns (names: seq<string>)
      requires Valid()
      ensures OrdersOk(graph.adjList, |users|, |foodItems|)
      ensures loggedUser.None? ==> names == []
      ensures loggedUser.Some? ==>
                names == Personalized(graph.adjList, |users|, loggedUser.value, foodItems, hour, weekday)
    {
      GraphOkOrders(graph.adjList, |users|, |foodItems|);
      if loggedUser.None? {
        return [];
      }
      names := CollectPersonalized(graph.adjList, |users|, loggedUser.value, foodItems, hour, weekday);
    }

    /**
     * `recommend_based_on_nutrition`: nothing before the first order, else
     * the names within the tolerance of the ordered foods' average score.
     * The Python code looks the user up in the graph without checking that
     * anyone is logged in.
     */
    method RecommendBasedOnNutrition() returns (names: seq<string>)
      requires Valid() && loggedUser.Some?
      ensures OrdersOk(graph.adjList, |users|, |foodItems|) && loggedUser.value < |users|
      ensures var ns := graph.adjList[UserV(loggedUser.value)];
        && (ns == [] ==> names == [])
        && (ns != [] ==> names == NutritionIndex.Recommendations(nutritionTree, ScoreSum(ns, foodItems) / (|ns| as real),
                                                                 NutritionTolerance))
    {
      GraphOkOrders(graph.adjList, |users|, |foodItems|);
      var total, count := SumScores(graph.adjList[UserV(loggedUser.value)], foodItems);
      if count == 0 {
        return [];
      }
      names := NutritionIndex.Recommendations(nutritionTree, total / (count as real), NutritionTolerance);
    }

    /** `get_food_based_on_nutrition`. */
    method GetFoodBasedOnNutrition(score: real) returns (name: Option<string>)
      requires Valid()
      ensures name == NutritionIndex.GetFood(nutritionTree, score)
      ensures NutritionOk(nutritionTree, foodItems)
    {
      name := NutritionIndex.GetFood(nutritionTree, score);
    }

    /** `popular_dishes_recommendation`. */
    method PopularDishesRecommendation() returns (names: seq<string>)
      requires Valid()
      ensures names == PopularDishes(popularDishes)
    {
      names := PopularDishes(popularDishes);
    }

    /** `time_based_suggestions`, with the clock read passed in. */
    method TimeBasedSuggestionsAt(hour: int, weekday: int) returns (names: seq<string>)
      requires Valid()
      ensures names == TimeBasedSuggestions(foodItems, hour, weekday)
    {
      names := TimeBasedSuggestions(foodItems, hour, weekday);
    }

    /** `offer_recommendation`: the offers, listed from a fresh offer tree in name order. */
    method OfferRecommendation() returns (offers: seq<Food>)
      requires Valid()
      ensures UniqueNames(foodItems) && forall k :: 0 <= k < |promotionList| ==> promotionList[k] < |foodItems|
      ensures offers == OfferIndex.InOrder(OfferBoard(FoodsAt(promotionList, foodItems)))
    {
      var board := BuildBoard(FoodsAt(promotionList, foodItems));
      offers := OfferIndex.InOrder(board);
    }
  }
}
