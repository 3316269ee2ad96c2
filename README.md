# FlavorSync recommendation engine — a Dafny model

FlavorSync is a food recommendation engine. The catalogue (`RecommendationSystem`) holds
users and foods. Beside them it keeps several indexes:

- a cuisine registry (a trie of cuisine names) with one dish list per cuisine;
- a ledger of the five newest arrivals (a doubly linked list);
- a user–food relationship graph (adjacency lists, one edge per order);
- a binary search tree of foods keyed by nutrition score;
- a counter of how often each dish was ordered;
- a list of promoted foods.

The strategies read these indexes:

- top-rated dishes of a cuisine, through a max-heap;
- new arrivals;
- personalized recommendations from the graph;
- recommendations by nutrition score, through the tree;
- popular dishes, by sorting the counter;
- time-of-day suggestions;
- dish pairing;
- an offer board, built as a binary search tree keyed by name.

A separate seasonal menu supplies calendar arithmetic: the season of a month, the distance between months round the year, Easter by the anonymous
Gregorian computus and Thanksgiving. It also keeps per-month sales bookkeeping.

The model follows the source's own form. The objects the engine updates in place are classes:
`RecommendationSystem`, the doubly linked list (real linked nodes), the max-heap, the trie,
the graph, the seasonal menu and its items. Their methods carry `modifies` clauses and
state their whole new state. The trees that are built and only read are datatypes with
recursive functions: the nutrition tree and the offer board. So are the selection rules. The
source's `for` and `while` loops become `for` and `while` loops with their invariants, proved
against a specification function whose properties are lemmas. The `while True` descent of
`insert_offer_BST` is the recursive `OfferIndex.Insert`; its as-written loop body is modelled
step by step by `OfferIndex.DescentStep` and `OfferIndex.DescentAfter`.

Modules, one per component: `Wrappers` (Option), `Entities` (food, user, graph vertex,
nutrition score), `Recency` (the new-arrivals list), `Heap` (the rating heap), `CuisineIndex`
(the trie), `NutritionIndex` (the nutrition tree), `Relations` (the graph), `OfferIndex` (the
offer tree), `Selection` (deduplication, the five-item cap, time-of-day filter, pairing,
popularity counter and its stable sort), `Catalog` (the catalogue class, its invariant and its
strategies) and `SeasonalMenuModel`.

Foods and users are handles: a food is its index in `foodItems` and a user its index in `users`.
The cuisine lists, the promotion list and the graph hold handles where the Python code holds
shared objects. A rating set on a food is then seen through every list, as it is in Python.

The engine's own description and its code differ in a few places. The model follows the code:

- `addUser` compares each `User` object with the new name as a string, so it never finds a
  duplicate and always adds the user;
- `rate_dish` and `recommend_based_on_nutrition` dereference the logged-in user without
  checking that there is one;
- a failed login ends the process.

## Model

| member | source | states |
|---|---|---|
| Recency.FoodNode.constructor | main.py:41-44 | a new node carries the food's name and is linked to nothing |
| Recency.DoublyLinkedList.constructor | main.py:50-54 | a new ledger is empty and has the given capacity |
| Recency.DoublyLinkedList.Append | main.py:56-75 | the listed names become the old ones plus the new name at the tail, minus the oldest when the ledger was full; the chain stays a valid doubly linked list |
| Recency.DoublyLinkedList.DropOldest | main.py:61-66 | the eviction step drops exactly the oldest name and keeps the chain linked |
| Recency.DoublyLinkedList.LinkAtTail | main.py:68-75 | linking a fresh node appends exactly its name after the old names |
| Recency.DoublyLinkedList.GetNewArrivals | main.py:77-90 | the walk back along `prev` links returns every listed name, newest first, never more than the capacity |
| Recency.SixArrivals | main.py:56-90 | six arrivals into a ledger of five: the first is evicted, the others come back newest first |
| Heap.SwapPermutes | main.py:128 | exchanging two slots keeps the same dishes |
| Heap.RootDominates | main.py:107-121 | in a max-heap the root is rated at least as high as every slot |
| Heap.RootIsMaximal | main.py:107-121 | no dish in a non-empty max-heap outranks the root, which is what `pop` returns |
| Heap.LastToRoot | main.py:117-119 | moving the last slot to the root loses exactly the old root |
| Heap.SiftUpStep | main.py:124-129 | one sift-up swap moves the single heap violation from a slot to its parent |
| Heap.SiftUpStepBelow | main.py:127-129 | after a sift-up swap every parent–child pair below the parent slot is ordered |
| Heap.SiftUpStepAbove | main.py:127-129 | after a sift-up swap the grandparent still dominates the parent slot's children |
| Heap.SiftDownStep | main.py:141-144 | swapping a slot with its highest-rated child when that child outranks it moves the violation down to that child |
| Heap.HigherChild | main.py:136-139 | the child picked by comparing the right child with the left outranks every child of the slot |
| Heap.SiftDownLeaf | main.py:135 | a slot without children cannot violate the heap: sifting down stops there with a max-heap |
| Heap.SiftDownSwap | main.py:138-144 | with the higher child picked and outranking the slot, the swap keeps the same dishes and moves the violation to the child |
| Heap.SiftDownStop | main.py:141-146 | with the higher child picked and not outranking the slot, the heap is whole |
| Heap.SiftDownDone | main.py:145-146 | a slot that outranks all its children leaves a max-heap |
| Heap.HeapifyDownAsWritten | main.py:133-146 | the as-written sift-down (child index computed once) keeps the heap's length |
| Heap.HeapifyDownAsWrittenPermutes | main.py:133-146 | the as-written sift-down only swaps slots: the heap holds the same dishes, each as often |
| Heap.PopAsWritten | main.py:107-121 | `pop` with the as-written sift-down: None on an empty heap, otherwise the root and one slot fewer |
| Heap.PopAsWrittenPermutes | main.py:107-121 | a pop as written removes exactly one copy of the root and keeps every other dish |
| Heap.DrainAsWritten | main.py:572-574 | popping until empty yields one rating per dish |
| Heap.RatingsOf | main.py:572-574 | the ratings of the heap's slots, slot by slot |
| Heap.RatingsPermute | main.py:572-574 | two arrangements of the same dishes carry the same ratings, counted with multiplicity |
| Heap.DrainAsWrittenPermutes | main.py:564-574 | draining as written yields every dish's rating exactly once: a permutation of the heap's ratings, only not in order |
| Heap.AsWrittenFirstPop | main.py:133-146 | on the max-heap rated 5, 4, 0, 3, 0, 0, 0, 2, 1 the first pop as written leaves a heap that is no longer a max-heap |
| Heap.AsWrittenSecondPop | main.py:133-146 | the second pop as written brings the dish rated 2 to the root above the one rated 3 |
| Heap.AsWrittenThirdPop | main.py:133-146 | the third pop as written takes the dish rated 2 while the one rated 3 stays inside |
| Heap.AsWrittenMiddlePops | main.py:572-574 | the second and third pops as written yield ratings 4 and 2 |
| Heap.AsWrittenLowPops | main.py:133-146 | the fourth to sixth pops as written leave the dish rated 3 at the root only after 1, 0, 0 came out |
| Heap.AsWrittenLastPops | main.py:572-574 | the last six pops as written yield 1, 0, 0, 3, 0, 0 |
| Heap.AsWrittenDrainIsNotSorted | main.py:564-574 | draining the sample heap as written yields 5, 4, 2, 1, 0, 0, 3, 0, 0: not highest rating first |
| Heap.MaxHeap.constructor | main.py:96-97 | a new heap is empty and a max-heap |
| Heap.MaxHeap.Push | main.py:99-105 | after a push the heap holds the old dishes plus the new one and is a max-heap |
| Heap.MaxHeap.Pop | main.py:107-121 | None exactly on an empty heap; otherwise a dish of the heap that no dish outranks, removed once, and the rest still a max-heap |
| Heap.MaxHeap.HeapifyUp | main.py:123-131 | sifting up a slot that only violates the heap against its parent restores a max-heap of the same dishes |
| Heap.MaxHeap.HeapifyDown | main.py:133-146 | sifting down (with the child index recomputed after each swap) restores a max-heap of the same dishes |
| CuisineIndex.Ancestor | main.py:181-185 | every prefix of a node's string is spelled by some node |
| CuisineIndex.NoChildNoNode | main.py:182-184 | a node without a child for a character has no extension by it anywhere in the trie |
| CuisineIndex.NoChildNoWord | main.py:182-184 | so the lookup's early "not found" is right: no registered name continues that way |
| CuisineIndex.AddChildDistinct | main.py:170-171 | a node created for a missing character spells a string no other node spells |
| CuisineIndex.AddChildEdges | main.py:170-172 | after creating a child every edge leads to the node spelling one character more |
| CuisineIndex.AddChildParents | main.py:170-172 | after creating a child every node but the root hangs under the node spelling its string minus the last character |
| CuisineIndex.AddChild | main.py:170-172 | creating a missing child keeps the trie well formed and the registered names unchanged |
| CuisineIndex.MarkEnd | main.py:173 | marking the end node registers exactly the inserted name |
| CuisineIndex.CuisineTrie.constructor | main.py:158-159 | a new trie registers no name |
| CuisineIndex.CuisineTrie.Insert | main.py:161-173 | insertion registers exactly the name, alongside those registered before |
| CuisineIndex.CuisineTrie.Search | main.py:175-186 | lookup answers true exactly for a registered name |
| CuisineIndex.PrefixIsNotRegistered | main.py:175-186 | after registering "Italian", "Italian" is found and its prefix "Ital" is not |
| Entities.MicronutrientBonus | main.py:632-638 | each listed vitamin adds 2 to the nutrition score and each mineral 1.5, whatever else is listed |
| Entities.MargheritaScore | main.py:766 | the demo Margherita Pizza scores 263.5 |
| Relations.LinkAddsOneEdge | main.py:285-290 | an edge appends each endpoint to the other's list (a self-loop twice) and changes no other vertex |
| Relations.LinkKeepsClosed | main.py:285-290 | adding an edge between known vertices keeps every neighbour a known vertex |
| Relations.LinkCount | main.py:286-288 | after an edge, v lists w once more for each way (v, w) matches the edge's endpoints |
| Relations.LinkKeepsSymmetric | main.py:285-290 | adding an edge keeps the graph undirected: w is listed by v as often as v by w |
| Relations.Graph.constructor | main.py:276-277 | a new graph has no vertices |
| Relations.Graph.AddVertex | main.py:279-283 | true exactly for a new vertex, which starts without neighbours; a known vertex is left alone |
| Relations.Graph.AddEdge | main.py:285-290 | true exactly when both endpoints are known, and then the edge is added; otherwise nothing changes |
| Relations.NewVertexKeepsShape | main.py:279-283 | a new vertex without neighbours keeps the graph closed and undirected |
| NutritionIndex.InsertAddsEntry | main.py:207-223 | insertion adds exactly the new food to the tree's contents, counted with multiplicity |
| NutritionIndex.InsertListsOnly | main.py:207-223 | after insertion the tree lists nothing but the old foods and the new one |
| NutritionIndex.InsertKeepsOrder | main.py:213-223 | insertion keeps smaller scores left and equal or larger ones right |
| NutritionIndex.InOrderSorted | main.py:189-191 | the in-order listing of the tree is sorted by ascending score |
| NutritionIndex.NamesInRangeMembers | main.py:236-238 | the collected names are exactly those of the foods whose score lies within the tolerance of the average, and no more of them than foods |
| NutritionIndex.NamesInRangeAppend | main.py:232-240 | collecting over two listings in turn is collecting over their concatenation |
| NutritionIndex.RecommendationsFollowInOrder | main.py:229-243 | the recommendations are the in-range names of the in-order listing, so in ascending score order |
| NutritionIndex.SearchFindsExactOrFloor | main.py:256-264 | the search returns a food of exactly the asked score when there is one; else the highest-scoring food below it; else the candidate it was given |
| NutritionIndex.GetFoodExact | main.py:247-251 | `get_food` names a food of exactly the asked score whenever the tree holds one |
| NutritionIndex.GetFoodFloor | main.py:247-251 | without an exact match `get_food` names the highest-scoring food below the score, and nothing exactly when every food scores above it |
| NutritionIndex.ThreeFoods | main.py:207-264 | with foods scoring 10, 20 and 30: 20 finds the second, 15 falls back to the first, 5 finds nothing, and 22 ± 10 recommends the last two |
| OfferIndex.LexLessIrreflexive | main.py:313 | no name sorts before itself |
| OfferIndex.LexLessTransitive | main.py:313 | name order is transitive |
| OfferIndex.LexLessTotal | main.py:313-319 | two names are ordered one way or the other exactly when they differ, never both |
| OfferIndex.InsertNames | main.py:306-324 | insertion adds the food's name to the tree's names and no other |
| OfferIndex.InsertKeepsOrder | main.py:306-324 | insertion keeps smaller names left and larger ones right, and a name already present leaves the tree as it was |
| OfferIndex.InsertListsOnlyNew | main.py:306-324 | after insertion the tree lists nothing but the old foods and the new one |
| OfferIndex.InOrderNames | main.py:328-338 | the listing holds a food for every name of the tree and only foods whose name is in it |
| OfferIndex.JoinAscending | main.py:333-338 | left listing, node, right listing, each in order and separated by the node's name, join into one listing in order |
| OfferIndex.InOrderAscending | main.py:326-338 | the in-order listing is in strictly ascending name order |
| OfferIndex.DuplicateNeverAttaches | main.py:312-324 | inserting a name already in the tree, the loop as written never attaches the node, however many turns it makes |
| OfferIndex.SecondOfferOfSameFood | main.py:306-324 | offering a food twice: the corrected insert keeps one entry, the loop as written stays at the root forever |
| Selection.Dedup | main.py:608-610 | "append if not yet present" keeps exactly the names of the input, each once, and no more of them than inputs |
| Selection.FirstIndex | main.py:608-610 | the position of a name's first occurrence: it is there and nowhere before |
| Selection.DedupFirstSeen | main.py:608-610 | the deduplicated names come in strictly increasing order of first occurrence |
| Selection.TakeDedupFirstSeen | main.py:608-625 | the first five deduplicated names are the five first seen: all in the input, in first-seen order, and every name left out first occurs after all of them |
| Selection.Take | main.py:625 | the first five: every kept element in place, five of them when there were at least five |
| Selection.Lower | main.py:709 | lowering keeps the length, turns each upper-case letter into its lower-case letter (code point + 32), leaves every other character alone, and leaves no upper-case letter |
| Selection.MealTypesFor | main.py:707-724 | the hour table: breakfast exactly from 6 to 10, lunch from 11 to 16, dinner from 17 to 21, snack and late-night exactly before 6 and from 22 on, and no other meal type |
| Selection.TimelyNames | main.py:707-724 | the filter keeps exactly the names of the foods suiting the time, never more of them than foods |
| Selection.SuitingFrom | main.py:707-724 | the positions, from a given one on, of the foods suiting the time |
| Selection.SuitingFromInRange | main.py:707-724 | each listed position is in the catalogue, at or after the start, and holds a food suiting the time |
| Selection.SuitingFromAscending | main.py:707-724 | the positions are listed in strictly ascending, that is catalogue, order |
| Selection.SuitingFromComplete | main.py:707-724 | every suiting food at or after the start has its position listed |
| Selection.TimelyNamesFollowCatalogue | main.py:707-724 | the filter's k-th name is the name of the k-th suiting food in catalogue order, and there are as many names as suiting foods |
| Selection.TimeBasedSuggestionsSuit | main.py:701-726 | the suggestions are the names of the first five suiting foods in catalogue order, position by position (all of them when fewer than five); at most five, each a food suiting the time, and fewer than five only when every suiting food is named |
| Selection.WeekendDropsCalorieLimit | main.py:716-724 | on Saturday and Sunday a dish suits the hour by its meal type alone, with no calorie limit |
| Selection.Pairings | main.py:521-526 | the pairings are exactly the names of the other dishes sharing the main dish's cuisine or flavour profile, never the main dish itself |
| Selection.AddQuantityCounts | main.py:456-459 | an order adds its quantity to that dish's counter and leaves every other counter alone |
| Selection.AddQuantityEntries | main.py:456-459 | the counter gains an entry only for a dish it did not count yet |
| Selection.AddQuantityKeepsDistinct | main.py:456-459 | the counter keeps one entry per dish |
| Selection.ThreeThenTwo | main.py:456-459 | ordering 3 and then 2 of a dish counts 5 |
| Selection.InsertByCount | main.py:690 | inserting into the sorted counter lengthens it by one |
| Selection.SortByCount | main.py:690 | sorting keeps the counter's length |
| Selection.InsertByCountPermutes | main.py:690 | inserting adds exactly the new entry |
| Selection.InsertByCountLists | main.py:690 | inserting lists nothing but the sorted entries and the new one |
| Selection.InsertByCountSorted | main.py:690 | inserting into a list sorted by descending count keeps it sorted |
| Selection.SortByCountSorts | main.py:690 | the sorted counter runs by descending count |
| Selection.SortByCountPermutes | main.py:690 | the sorted counter is a permutation of the counter |
| Selection.InsertByCountStable | main.py:690 | inserting places the new entry behind every entry of equal count |
| Selection.SortByCountStable | main.py:690 | the sort is stable: dishes with equal counts keep the order in which they were first ordered |
| Selection.TallyNamesInOrder | main.py:691 | the names of the counter's entries, position by position |
| Selection.PopularDishesAreTop | main.py:688-692 | at most five names, those of the first five sorted entries, each an ordered dish, and no dish left out counts more than one kept |
| Catalog.FirstFoodNamed | main.py:392-395 | the first index of a food of that name, and none exactly when no food has it |
| Catalog.FirstUserNamed | main.py:424-425 | the first index of a user of that name, and none exactly when no user has it |
| Catalog.FindUser | main.py:424-438 | the scan of `login_user` finds the first user of that name |
| Catalog.FindFood | main.py:450-451 | the scan shared by `addFood`, `order_food`, `pair_recommendations` and `add_offers` finds the first food of that name |
| Catalog.FindListed | main.py:545-547 | the scan of `rate_dish` finds the first dish of that name listed under the cuisine |
| Catalog.FirstListedNamedFinds | main.py:545-550 | the listed dish found is the first of that name, and none is found only when none is listed |
| Catalog.FoodsAt | main.py:566 | the foods a cuisine list designates, position by position |
| Catalog.NamesOf | main.py:574 | the dish names of a ranking, position by position |
| Catalog.GraphOkNewVertex | main.py:371 | a new user, or a new food (main.py:408), joins the graph without neighbours and keeps it joining only users to foods |
| Catalog.GraphOkLink | main.py:452 | an order links a known user to a known food and keeps the graph joining only users to foods |
| Catalog.AddFoodKeepsCuisineLists | main.py:400-402 | listing a new food at the end of its cuisine's list, stamped with its position, keeps every list consistent |
| Catalog.AddFoodKeepsUniqueNames | main.py:392-395 | after the duplicate check, dish names stay distinct |
| Catalog.AddFoodKeepsNutrition | main.py:409 | inserting the new food keeps the nutrition tree a search tree holding exactly the catalogue's foods |
| Catalog.AddFoodKeepsCatalog | main.py:390-411 | adding a food under a new name keeps the whole catalogue invariant |
| Catalog.RetouchKeepsCatalog | main.py:540-549 | changing foods without touching name, cuisine, stamp or score keeps the catalogue invariant |
| Catalog.PromoteKeepsCatalog | main.py:728-733 | attaching an offer to a food and queueing it keeps the catalogue invariant |
| Catalog.RateKeepsCatalog | main.py:540-549 | recording a user's rating and setting it on at most one food keeps the catalogue invariant |
| Catalog.OrderKeepsCatalog | main.py:446-462 | an order keeps the catalogue invariant |
| Catalog.GraphOkOrders | main.py:607-618 | every user is a vertex whose neighbours are catalogue foods |
| Catalog.NeighbourNames | main.py:608-610 | the names of the foods a user's edges lead to, in edge order |
| Catalog.OthersNamesMembers | main.py:614-618 | a name is gathered from the other users exactly when one of them ordered a food of that name |
| Catalog.DedupFirst | main.py:608-610 | the first ordered name stays first after deduplication |
| Catalog.PersonalizedShape | main.py:602-625 | a user with orders gets at most five distinct names of dishes they ordered, first order first, all of them when fewer than five; else the same from the other users' orders; only when nobody ordered, the time-based suggestions |
| Catalog.PersonalizedOrder | main.py:602-625 | the personalized names come in the order of first occurrence among the user's own orders (else among the other users' orders, user by user), and every ordered name left out first occurs after all of those listed |
| Catalog.TakeKeepsShape | main.py:625 | cutting a list without repeats to five keeps it without repeats, its first name first, and whole when short |
| Catalog.AppendNew | main.py:608-610 | the "append if not present" loop extends the deduplicated names by the new run |
| Catalog.CollectPersonalized | main.py:602-625 | the loops of `personalized_recommendations` compute the personalized list |
| Catalog.CollectFromOthers | main.py:614-618 | the loop over the other users gathers their ordered names, deduplicated |
| Catalog.ScoreSumBounds | main.py:647-655 | when every ordered food scores within bounds, so does the average |
| Catalog.SumScores | main.py:647-651 | the summing loop totals the ordered foods' scores and counts them |
| Catalog.TreeHoldsCatalogue | main.py:409 | a nutrition tree kept in step lists exactly the catalogue's foods, one entry per food |
| Catalog.NutritionRecommendationsMatch | main.py:646-660 | the nutrition recommendations name exactly the catalogue's foods within the tolerance of the average, and no more names than foods |
| Catalog.GetFoodMatches | main.py:664-665 | the lookup names a food with the highest score not above the asked one, and nothing exactly when every food scores above it |
| Catalog.CollectPairings | main.py:522-526 | the pairing loop collects the pairings |
| Catalog.RankByRating | main.py:564-574 | pushing every dish of the cuisine and popping until empty ranks exactly those dishes, highest rating first |
| Catalog.BuildBoard | main.py:738-740 | the insertion loop builds the offer board from the promotions in order |
| Catalog.OfferBoardIsSearchTree | main.py:738-741 | the offer board is a search tree by name |
| Catalog.OfferBoardNames | main.py:738-741 | every promoted name is on the board |
| Catalog.OfferBoardListsPromoted | main.py:738-741 | every food listed on the board is a promoted one |
| Catalog.PromotedByName | main.py:728-733 | with distinct dish names, two promoted foods of one name are one food |
| Catalog.OfferBoardListsPromotions | main.py:737-746 | with distinct dish names the offers listed are exactly the promoted foods, in strictly ascending name order |
| Catalog.RecommendationSystem.constructor | main.py:347-358 | a new catalogue holds no user, food, cuisine, arrival, order or promotion, and no one is logged in |
| Catalog.RecommendationSystem.AddUser | main.py:363-372 | the user is always appended, with "None" as allergens, and becomes a vertex without neighbours; nothing else changes |
| Catalog.RecommendationSystem.AddCuisine | main.py:536-538 | the name is registered and its dish list starts (or restarts) empty; nothing else changes |
| Catalog.RecommendationSystem.LoginUser | main.py:419-438 | unknown user exactly when no user has the name; logged in exactly when the first such user's password matches, and only then is the session set |
| Catalog.RecommendationSystem.Logout | main.py:748-749 | the session is cleared and nothing else changes |
| Catalog.RecommendationSystem.AddFood | main.py:390-411 | a name already present changes nothing; otherwise the scored food joins catalogue, graph and nutrition tree, and, only when its cuisine is registered, is stamped, listed under it and recorded as a new arrival |
| Catalog.RecommendationSystem.NoteArrival | main.py:403 | the new-arrivals list takes one more name, dropping the oldest at capacity |
| Catalog.RecommendationSystem.StoreFood | main.py:400-409 | the food joins the catalogue, the graph, the nutrition tree and, when its cuisine is registered, that cuisine's list |
| Catalog.RecommendationSystem.OrderFood | main.py:446-464 | with a session and a known dish the user is linked to the first dish of that name, the order is appended to the history and the quantity counted; otherwise nothing changes |
| Catalog.RecommendationSystem.RateDish | main.py:540-552 | for a registered cuisine the user's rating is recorded and set on the first dish of that name listed under the cuisine; otherwise nothing changes |
| Catalog.RecommendationSystem.AddOffers | main.py:728-735 | for a known name the first food of that name gets the offer and is queued once more for the board; otherwise nothing changes |
| Catalog.RecommendationSystem.GetNewArrivals | main.py:577-594 | the recent names, newest first, at most five |
| Catalog.RecommendationSystem.PairRecommendations | main.py:503-533 | nothing without a session or a known main dish; else the pairings of the first dish of that name |
| Catalog.RecommendationSystem.CuisineBasedRecommendations | main.py:554-575 | nothing for an unregistered or empty cuisine; else the names of exactly its dishes, highest rating first |
| Catalog.RecommendationSystem.PersonalizedRecommendations | main.py:602-625 | nothing without a session; else the personalized list of the logged-in user |
| Catalog.RecommendationSystem.RecommendBasedOnNutrition | main.py:646-660 | nothing before the first order; else the names within 15 of the ordered foods' average score |
| Catalog.RecommendationSystem.GetFoodBasedOnNutrition | main.py:664-665 | the nutrition tree's exact-or-lower lookup over a tree holding exactly the catalogue's foods |
| Catalog.RecommendationSystem.PopularDishesRecommendation | main.py:688-692 | the names of the five most ordered dishes |
| Catalog.RecommendationSystem.TimeBasedSuggestionsAt | main.py:701-726 | the time-based suggestions for the given hour and weekday |
| Catalog.RecommendationSystem.OfferRecommendation | main.py:737-746 | the offer board's listing built from the promotions, over distinct dish names |
| SeasonalMenuModel.FirstListingFinds | seasonal_menu_items.py:87-92 | the season found lists the month, and none is found exactly when no season lists it |
| SeasonalMenuModel.CurrentSeasonListsMonth | seasonal_menu_items.py:7-11 | each calendar month is listed by exactly one season, the one `get_current_season` returns, so the WINTER fallback is never needed |
| SeasonalMenuModel.MonthDistanceIsCircular | seasonal_menu_items.py:81-82 | the distance round the year is symmetric, at most 6, and 0 exactly for the same month |
| SeasonalMenuModel.NearestPeakDistance | seasonal_menu_items.py:77-83 | none exactly without peak seasons; else the distance to some peak month and no more than to any |
| SeasonalMenuModel.NearestMonth | seasonal_menu_items.py:80-83 | the inner loop lowers the best distance to at most that of every month it scans, never raising it |
| SeasonalMenuModel.EasterDate | seasonal_menu_items.py:110-127 | a date exactly for the years `datetime` accepts |
| SeasonalMenuModel.EasterOffsetBounds | seasonal_menu_items.py:122-125 | the computus' last quantity lies between 114 and 148 |
| SeasonalMenuModel.EasterInSpring | seasonal_menu_items.py:110-127 | Easter falls between 22 March and 25 April on a real calendar date |
| SeasonalMenuModel.Easter2024 | seasonal_menu_items.py:110-127 | Easter 2024 is 31 March |
| SeasonalMenuModel.Easter2025 | seasonal_menu_items.py:110-127 | Easter 2025 is 20 April |
| SeasonalMenuModel.FourthWeekdayOfNovember | seasonal_menu_items.py:129-133 | the day found is the fourth of the target weekday in November: between the 22nd and the 28th and on that weekday |
| SeasonalMenuModel.ThanksgivingAsWritten | seasonal_menu_items.py:129-133 | as written, the date is the fourth Friday of November |
| SeasonalMenuModel.Thanksgiving | seasonal_menu_items.py:23 | the date is the fourth Thursday of November |
| SeasonalMenuModel.Thanksgiving2024 | seasonal_menu_items.py:129-133 | for 2024 the code as written gives 22 November; Thanksgiving was on the 28th |
| SeasonalMenuModel.MenuItem.constructor | seasonal_menu_items.py:48-58 | a new item keeps its name, description and seasons and has no sales |
| SeasonalMenuModel.SeasonalMenu.constructor | seasonal_menu_items.py:64-66 | a new menu has no items |
| SeasonalMenuModel.SeasonalMenu.AddItem | seasonal_menu_items.py:68-69 | the item is appended to the menu |
| SeasonalMenuModel.SeasonalMenu.RecordSale | seasonal_menu_items.py:168-173 | the quantity is added under the month's key of the first item of that name; no other item and no other key changes, and nothing changes without such an item |
| SeasonalMenuModel.TwoSales | seasonal_menu_items.py:168-173 | two sales of 10 and 15 of one dish in one month add up to 25 under that month's key |

## Left out

- Input, output, `print` and `sys.exit` are not modelled. Console reads become parameters, as in `LoginUser` and `RateDish`. A failed login changes nothing and reports its `LoginOutcome`.
- The clock is a parameter: the hour and weekday of `time_based_suggestions`; the month, year, weekday of 1 November and "YYYY-MM" sales key of the seasonal menu.
- Catalog.RecommendationSystem.PairRecommendations: `print_recommendations` returns None, so in Python a non-empty result comes back as None. The model returns the list that is printed.
- Catalog.RecommendationSystem.CuisineBasedRecommendations: returns the printed list where Python returns None, and ranks with the corrected sift-down (see Findings). With a non-empty list and nobody logged in, Python raises in `print_recommendations` (main.py:675); the model returns the list there too.
- Catalog.RecommendationSystem.GetNewArrivals: returns the printed list where Python returns None. With a non-empty list and nobody logged in, Python raises in `print_recommendations` (main.py:675, `self.logged_user.name` on None); the model returns the list there too.
- Catalog.RecommendationSystem.PersonalizedRecommendations: returns the printed list where Python returns None.
- Catalog.RecommendationSystem.RecommendBasedOnNutrition: returns the printed list where Python returns None. It requires a logged-in user because Python raises on a missing one.
- Catalog.RecommendationSystem.PopularDishesRecommendation: returns the printed list where Python returns None. With a non-empty list and nobody logged in, Python raises in `print_recommendations` (main.py:675); the model returns the list there too.
- Catalog.RecommendationSystem.TimeBasedSuggestionsAt: returns the printed list where Python returns None. With a non-empty list and nobody logged in, Python raises in `print_recommendations` (main.py:675); the model returns the list there too.
- Catalog.RecommendationSystem.OfferRecommendation: returns the listing Python prints. It builds the board with the corrected insertion, since the loop as written never ends on a food promoted twice.
- Catalog.RecommendationSystem.RateDish: requires a logged-in user for a registered cuisine because Python raises there.
- Recency.DoublyLinkedList.constructor: requires a capacity of at least 1. Python fails on the first append at capacity 0; the engine uses 5.
- `update_user_dietary_preferences`, `get_dietary_restrictions`, `list_users`, `print_graph` and `main` are left out. They are console interaction only.
- Floating-point arithmetic is modelled as exact rationals (`real`). This covers the nutrition score and the average score.
- `str.lower()` is modelled on ASCII letters only.
- The seasonal menu's pricing (`calculate_seasonal_price`, `update_popularity`, `calculate_ingredient_availability`'s final 0.2 floor) is left out because it is floating point. Its month-distance scan is modelled by `NearestPeakDistance`.
- `get_seasonal_items` and `get_current_holiday` are left out: they combine the clock with floating-point pricing. Their date computations are modelled by `EasterDate`, `Thanksgiving` and `CurrentSeason`.
- The menu-level `sales_history` of `SeasonalMenu` is never written by the source and is left out.
- `Ingredient`, prices and descriptions beyond the item's name and seasons are left out.
- The nutrition tree and the offer tree are values (datatypes), not linked nodes. Both are built by insertion and then only read, so no aliasing is lost.
- The trie is an arena of child maps indexed by slot rather than linked node objects.
- Graph symmetry is proved of `Relations.Link` and the graph class, but it is not part of the catalogue invariant, which records only that edges join users to foods.
- SeasonalMenuModel.EasterInSpring: bounds the date only; it does not prove that the date is a Sunday.
- Catalog.OfferBoardNames: states that every promoted name is on the board. The converse is `OfferBoardListsPromoted`.
- OfferIndex.InsertNames: states the names only. It does not state that the new food is listed exactly once.
- A second `add_cuisine` of a known name restarts its dish list, as in Python. The foods already listed there keep their stamps.

## Findings

| source | as written | input that shows it | evidently intended | confidence | as-written member | corrected member |
|---|---|---|---|---|---|---|
| main.py:133-146 | `_heapify_down` computes `child_index` once, before the loop, and never recomputes it from the new `index` after a swap, so later rounds compare with a sibling or cousin | one cuisine whose dishes are rated 5, 4, 0, 3, 0, 0, 0, 2, 1, added in that order; `cuisine_based_recommendations` lists ratings 5, 4, 2, 1, 0, 0, 3, 0, 0 | `child_index = 2 * index + 1` after each swap, so the ranking is highest rating first (`Catalog.RankByRating`) | not executed | Heap.AsWrittenDrainIsNotSorted | Heap.MaxHeap.HeapifyDown |
| main.py:312-324 | `insert_offer_BST`'s `while True` has no branch for an equal name | `add_offers` twice for the same food, then `offer_recommendation`: the loop never returns | an equal name is already on the board and insertion leaves the tree as it was | not executed | OfferIndex.DuplicateNeverAttaches | OfferIndex.InsertKeepsOrder |
| seasonal_menu_items.py:129-133 | `_calculate_thanksgiving_date` waits for `weekday() == 4`, which is Friday | year 2024 (1 November was a Friday): the result is 22 November, while Thanksgiving was 28 November | stop at weekday 3, Thursday, giving the fourth Thursday | not executed | SeasonalMenuModel.ThanksgivingAsWritten | SeasonalMenuModel.Thanksgiving |
