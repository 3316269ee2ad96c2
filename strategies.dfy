/**
 * The selection rules behind the recommendation strategies of main.py that
 * are plain list computations: duplicate removal, the five-item cap, the
 * time-of-day filter, dish pairing and the popularity ranking.
 */
module Selection {
  import opened Entities

  /** The list with later repeats dropped, as built by "append if not already in". */
  function Dedup(s: seq<string>): (r: seq<string>)
    ensures forall x :: x in r <==> x in s
    ensures forall i, j :: 0 <= i < j < |r| ==> r[i] != r[j]
    ensures |r| <= |s|
  {
    if s == [] then []
    else
      var init := Dedup(s[..|s| - 1]);
      assert forall x :: x in s <==> x in s[..|s| - 1] || x == s[|s| - 1] by {
        assert s == s[..|s| - 1] + [s[|s| - 1]];
      }
      if s[|s| - 1] in init then init else init + [s[|s| - 1]]
  }

  /** The position of the first occurrence of `x` in `s`. */
  function FirstIndex(s: seq<string>, x: string): (i: nat)
    requires x in s
    ensures i < |s| && s[i] == x && forall k :: 0 <= k < i ==> s[k] != x
  {
    if s[0] == x then 0 else 1 + FirstIndex(s[1..], x)
  }

  /** A name's first occurrence does not move when more names follow. */
  lemma FirstIndexExtend(s: seq<string>, y: string, x: string)
    requires x in s
    ensures x in s + [y] && FirstIndex(s + [y], x) == FirstIndex(s, x)
  {
    var a, b := FirstIndex(s, x), FirstIndex(s + [y], x);
    assert (s + [y])[a] == x;
    assert forall k :: 0 <= k < |s| ==> (s + [y])[k] == s[k];
  }

  /**
   * "Append if not already in" keeps the names in the order of their first
   * occurrence.
   */
  lemma {:induction false} DedupFirstSeen(s: seq<string>)
    ensures forall i, j :: 0 <= i < j < |Dedup(s)| ==> FirstIndex(s, Dedup(s)[i]) < FirstIndex(s, Dedup(s)[j])
  {
    if s != [] {
      var init, last := s[..|s| - 1], s[|s| - 1];
      assert s == init + [last];
      DedupFirstSeen(init);
      var d := Dedup(init);
      forall x | x in init
        ensures FirstIndex(s, x) == FirstIndex(init, x)
      {
        FirstIndexExtend(init, last, x);
      }
      if last !in d {
        assert FirstIndex(s, last) == |s| - 1;
        assert Dedup(s) == d + [last];
      } else {
        assert Dedup(s) == d;
      }
    }
  }

  /**
   * The first `n` deduplicated names are the `n` names seen first: they come
   * in order of first occurrence, and every name left out first occurs after
   * all of them.
   */
  lemma TakeDedupFirstSeen(s: seq<string>, n: nat)
    ensures var r := Take(Dedup(s), n);
      && (forall x :: x in r ==> x in s)
      && (forall i, j :: 0 <= i < j < |r| ==> FirstIndex(s, r[i]) < FirstIndex(s, r[j]))
      && (forall x :: x in s && x !in r ==> forall k :: 0 <= k < |r| ==> FirstIndex(s, r[k]) < FirstIndex(s, x))
  {
    var d := Dedup(s);
    var r := Take(d, n);
    DedupFirstSeen(s);
    forall x | x in r
      ensures x in s
    {
      var k :| 0 <= k < |r| && r[k] == x;
      assert d[k] == x;
    }
    forall x | x in s && x !in r
      ensures forall k :: 0 <= k < |r| ==> FirstIndex(s, r[k]) < FirstIndex(s, x)
    {
      var p :| 0 <= p < |d| && d[p] == x;
      assert forall k :: 0 <= k < |r| ==> r[k] == d[k] && r[k] in r;
      assert p >= |r|;
      forall k | 0 <= k < |r|
        ensures FirstIndex(s, r[k]) < FirstIndex(s, x)
      {
        assert r[k] == d[k];
      }
    }
  }

  /** Once a name is kept, later elements only add names behind it. */
  lemma DedupExtends(s: seq<string>, x: string)
    ensures Dedup(s + [x]) == if x in Dedup(s) then Dedup(s) else Dedup(s) + [x]
  {
    assert (s + [x])[..|s + [x]| - 1] == s;
  }

  /** Python's `s[:n]`. */
  function Take<T>(s: seq<T>, n: nat): (r: seq<T>)
    ensures |r| <= n && |r| <= |s|
    ensures |s| >= n ==> |r| == n
    ensures forall i :: 0 <= i < |r| ==> r[i] == s[i]
  {
    if |s| <= n then s else s[..n]
  }

  /** The recommendation cap shared by the strategies. */
  const MaxRecommendations: nat := 5

  /** Calories below this make a weekday "quick meal". */
  const QuickMealCalories: int := 500

  /** ASCII `str.lower()`. */
  function Lower(s: string): (r: string)
    ensures |r| == |s|
    ensures forall i :: 0 <= i < |s| ==> ('A' <= s[i] <= 'Z' <==> r[i] != s[i])
    ensures forall i :: 0 <= i < |s| && 'A' <= s[i] <= 'Z' ==> r[i] as int == s[i] as int + 32
    ensures forall i :: 0 <= i < |r| ==> !('A' <= r[i] <= 'Z')
  {
    if s == [] then []
    else [if 'A' <= s[0] <= 'Z' then (s[0] as int + 32) as char else s[0]] + Lower(s[1..])
  }

  /** The meal types served at a given hour of the day. */
  function MealTypesFor(hour: int): (types: seq<string>)
    ensures "breakfast" in types <==> 6 <= hour < 11
    ensures "lunch" in types <==> 11 <= hour < 17
    ensures "dinner" in types <==> 17 <= hour < 22
    ensures "snack" in types <==> hour < 6 || 22 <= hour
    ensures "late-night" in types <==> hour < 6 || 22 <= hour
    ensures forall t :: t in types ==> t in ["breakfast", "lunch", "dinner", "snack", "late-night"]
  {
    if 6 <= hour < 11 then ["breakfast"]
    else if 11 <= hour < 17 then ["lunch"]
    else if 17 <= hour < 22 then ["dinner"]
    else ["snack", "late-night"]
  }

  /** Monday..Friday are 0..4: a weekday also asks for a quick meal. */
  predicate SuitsTime(f: Food, hour: int, weekday: int)
  {
    Lower(f.mealType) in MealTypesFor(hour) && (weekday < 5 ==> f.calories < QuickMealCalories)
  }

  /** The names of the foods suiting the time, in catalogue order. */
  function TimelyNames(foods: seq<Food>, hour: int, weekday: int): (names: seq<string>)
    ensures |names| <= |foods|
    ensures forall n :: n in names <==> exists f :: f in foods && SuitsTime(f, hour, weekday) && f.name == n
  {
    if foods == [] then []
    else
      var rest := TimelyNames(foods[1..], hour, weekday);
      assert forall f :: f in foods <==> f == foods[0] || f in foods[1..];
      (if SuitsTime(foods[0], hour, weekday) then [foods[0].name] else []) + rest
  }

  /** The positions, from `i` on, of the foods suiting the time, in catalogue order. */
  function SuitingFrom(foods: seq<Food>, hour: int, weekday: int, i: nat): seq<nat>
    decreases |foods| - i
  {
    if i >= |foods| then []
    else (if SuitsTime(foods[i], hour, weekday) then [i] else []) + SuitingFrom(foods, hour, weekday, i + 1)
  }

  /** Each position listed from `i` on is in range, at or after `i`, and names a suiting food. */
  lemma {:induction false} SuitingFromInRange(foods: seq<Food>, hour: int, weekday: int, i: nat)
    ensures forall k :: 0 <= k < |SuitingFrom(foods, hour, weekday, i)| ==>
      i <= SuitingFrom(foods, hour, weekday, i)[k] < |foods| && SuitsTime(foods[SuitingFrom(foods, hour, weekday, i)[k]], hour, weekday)
    decreases |foods| - i
  {
    if i < |foods| {
      SuitingFromInRange(foods, hour, weekday, i + 1);
      var rest := SuitingFrom(foods, hour, weekday, i + 1);
      if SuitsTime(foods[i], hour, weekday) {
        assert SuitingFrom(foods, hour, weekday, i) == [i] + rest;
      } else {
        assert SuitingFrom(foods, hour, weekday, i) == rest;
      }
    }
  }

  /** The positions are listed in strictly ascending (catalogue) order. */
  lemma {:induction false} SuitingFromAscending(foods: seq<Food>, hour: int, weekday: int, i: nat)
    ensures forall k, l :: 0 <= k < l < |SuitingFrom(foods, hour, weekday, i)| ==>
      SuitingFrom(foods, hour, weekday, i)[k] < SuitingFrom(foods, hour, weekday, i)[l]
    decreases |foods| - i
  {
    if i < |foods| {
      SuitingFromAscending(foods, hour, weekday, i + 1);
      SuitingFromInRange(foods, hour, weekday, i + 1);
      var rest := SuitingFrom(foods, hour, weekday, i + 1);
      if SuitsTime(foods[i], hour, weekday) {
        var idx := [i] + rest;
        assert SuitingFrom(foods, hour, weekday, i) == idx;
        assert forall k :: 1 <= k < |idx| ==> idx[k] == rest[k - 1] && i < idx[k];
      } else {
        assert SuitingFrom(foods, hour, weekday, i) == rest;
      }
    }
  }

  /** Every suiting food at or after `i` has its position listed. */
  lemma {:induction false} SuitingFromComplete(foods: seq<Food>, hour: int, weekday: int, i: nat)
    ensures forall j :: i <= j < |foods| && SuitsTime(foods[j], hour, weekday) ==> j in SuitingFrom(foods, hour, weekday, i)
    decreases |foods| - i
  {
    if i < |foods| {
      SuitingFromComplete(foods, hour, weekday, i + 1);
      var rest := SuitingFrom(foods, hour, weekday, i + 1);
      if SuitsTime(foods[i], hour, weekday) {
        assert SuitingFrom(foods, hour, weekday, i) == [i] + rest;
      } else {
        assert SuitingFrom(foods, hour, weekday, i) == rest;
      }
    }
  }

  /** The filtered names are the names of the suiting foods, position by position, in catalogue order. */
  lemma {:induction false} TimelyNamesFollowCatalogue(foods: seq<Food>, hour: int, weekday: int, i: nat)
    requires i <= |foods|
    ensures var idx := SuitingFrom(foods, hour, weekday, i);
      && |TimelyNames(foods[i..], hour, weekday)| == |idx|
      && forall k :: 0 <= k < |idx| ==> idx[k] < |foods| && TimelyNames(foods[i..], hour, weekday)[k] == foods[idx[k]].name
    decreases |foods| - i
  {
    SuitingFromInRange(foods, hour, weekday, i);
    if i < |foods| {
      TimelyNamesFollowCatalogue(foods, hour, weekday, i + 1);
      assert foods[i..][1..] == foods[i + 1..];
    }
  }

  /** `time_based_suggestions` with the clock read passed in. */
  function TimeBasedSuggestions(foods: seq<Food>, hour: int, weekday: int): seq<string>
  {
    Take(TimelyNames(foods, hour, weekday), MaxRecommendations)
  }

  /**
   * At most five suggestions, each the name of a food suiting the time; fewer
   * than five only when every suiting food is already named.  They are the
   * names of the first five suiting foods in catalogue order.
   */
  lemma TimeBasedSuggestionsSuit(foods: seq<Food>, hour: int, weekday: int)
    ensures var idx := SuitingFrom(foods, hour, weekday, 0);
      && |TimeBasedSuggestions(foods, hour, weekday)| == (if |idx| < MaxRecommendations then |idx| else MaxRecommendations)
      && forall k :: 0 <= k < |TimeBasedSuggestions(foods, hour, weekday)| ==>
           idx[k] < |foods| && TimeBasedSuggestions(foods, hour, weekday)[k] == foods[idx[k]].name
    ensures |TimeBasedSuggestions(foods, hour, weekday)| <= MaxRecommendations
    ensures forall n :: n in TimeBasedSuggestions(foods, hour, weekday) ==>
              exists f :: f in foods && SuitsTime(f, hour, weekday) && f.name == n
    ensures |TimeBasedSuggestions(foods, hour, weekday)| < MaxRecommendations ==>
              forall f :: f in foods && SuitsTime(f, hour, weekday) ==> f.name in TimeBasedSuggestions(foods, hour, weekday)
  {
    var all := TimelyNames(foods, hour, weekday);
    var r := TimeBasedSuggestions(foods, hour, weekday);
    TimelyNamesFollowCatalogue(foods, hour, weekday, 0);
    assert foods[0..] == foods;
    forall n | n in r
      ensures n in all
    {
      var i :| 0 <= i < |r| && r[i] == n;
      assert all[i] == n;
    }
    if |r| < MaxRecommendations {
      assert r == all;
    }
  }

  /** A weekend suggestion list contains any dish the weekday list would, heavy or not. */
  lemma WeekendDropsCalorieLimit(f: Food, hour: int, weekday: int)
    requires 5 <= weekday
    ensures SuitsTime(f, hour, weekday) <==> Lower(f.mealType) in MealTypesFor(hour)
  {
  }

  /** A dish pairs with the main dish when it shares its cuisine or its flavour profile. */
  predicate Pairs(f: Food, mainName: string, main: Food)
  {
    f.name != mainName && (f.cuisineType == main.cuisineType || f.flavorProfile == main.flavorProfile)
  }

  /** The names of the dishes pairing with `main`, in catalogue order. */
  function Pairings(foods: seq<Food>, mainName: string, main: Food): (names: seq<string>)
    ensures |names| <= |foods|
    ensures forall n :: n in names <==> exists f :: f in foods && Pairs(f, mainName, main) && f.name == n
    ensures mainName !in names
  {
    if foods == [] then []
    else
      var rest := Pairings(foods[1..], mainName, main);
      assert forall f :: f in foods <==> f == foods[0] || f in foods[1..];
      (if Pairs(foods[0], mainName, main) then [foods[0].name] else []) + rest
  }

  /** One entry of the order counter: a dish name and the total quantity ordered. */
  datatype Tally = Tally(name: string, count: int)

  /** A dictionary has one entry per key. */
  ghost predicate DistinctNames(ts: seq<Tally>)
  {
    forall i, j :: 0 <= i < j < |ts| ==> ts[i].name != ts[j].name
  }

  function TallyNames(ts: seq<Tally>): set<string>
  {
    set t | t in ts :: t.name
  }

  /** The counter's value for `name`, 0 when it has none. */
  function CountOf(ts: seq<Tally>, name: string): int
  {
    if ts == [] then 0
    else if ts[0].name == name then ts[0].count
    else CountOf(ts[1..], name)
  }

  /** `popular_dishes[name] += quantity`, or a new entry at the end. */
  function AddQuantity(ts: seq<Tally>, name: string, quantity: int): seq<Tally>
  {
    if ts == [] then [Tally(name, quantity)]
    else if ts[0].name == name then [Tally(name, ts[0].count + quantity)] + ts[1..]
    else [ts[0]] + AddQuantity(ts[1..], name, quantity)
  }

  /** The counter for `name` grows by `quantity` and no other counter changes. */
  lemma {:induction false} AddQuantityCounts(ts: seq<Tally>, name: string, quantity: int)
    ensures CountOf(AddQuantity(ts, name, quantity), name) == CountOf(ts, name) + quantity
    ensures forall m :: m != name ==> CountOf(AddQuantity(ts, name, quantity), m) == CountOf(ts, m)
  {
    if ts != [] && ts[0].name != name {
      AddQuantityCounts(ts[1..], name, quantity);
    }
  }

  /** The counter gains an entry only for a dish it did not count yet. */
  lemma {:induction false} AddQuantityEntries(ts: seq<Tally>, name: string, quantity: int)
    ensures TallyNames(AddQuantity(ts, name, quantity)) == TallyNames(ts) + {name}
    ensures |AddQuantity(ts, name, quantity)| == if name in TallyNames(ts) then |ts| else |ts| + 1
  {
    if ts != [] {
      assert TallyNames(ts) == TallyNames(ts[1..]) + {ts[0].name} by {
        assert forall t :: t in ts <==> t == ts[0] || t in ts[1..];
      }
      if ts[0].name != name {
        var rest := AddQuantity(ts[1..], name, quantity);
        AddQuantityEntries(ts[1..], name, quantity);
        assert TallyNames([ts[0]] + rest) == TallyNames(rest) + {ts[0].name} by {
          assert forall t :: t in [ts[0]] + rest <==> t == ts[0] || t in rest;
        }
      } else {
        var r := [Tally(name, ts[0].count + quantity)] + ts[1..];
        assert TallyNames(r) == TallyNames(ts[1..]) + {name} by {
          assert forall t :: t in r <==> t == r[0] || t in ts[1..];
        }
      }
    }
  }

  /** In a dictionary the first key appears nowhere after it. */
  lemma DistinctHead(ts: seq<Tally>)
    requires DistinctNames(ts) && ts != []
    ensures ts[0].name !in TallyNames(ts[1..])
  {
    forall t | t in ts[1..]
      ensures t.name != ts[0].name
    {
      var k :| 0 <= k < |ts[1..]| && ts[1..][k] == t;
      assert ts[k + 1] == t;
    }
  }

  /** Adding to the counter keeps one entry per dish. */
  lemma {:induction false} AddQuantityKeepsDistinct(ts: seq<Tally>, name: string, quantity: int)
    requires DistinctNames(ts)
    ensures DistinctNames(AddQuantity(ts, name, quantity))
  {
    var r := AddQuantity(ts, name, quantity);
    if ts != [] && ts[0].name != name {
      var rest := AddQuantity(ts[1..], name, quantity);
      AddQuantityKeepsDistinct(ts[1..], name, quantity);
      AddQuantityEntries(ts[1..], name, quantity);
      DistinctHead(ts);
      assert r == [ts[0]] + rest;
      forall i, j | 0 <= i < j < |r|
        ensures r[i].name != r[j].name
      {
        assert r[j] == rest[j - 1];
        if i > 0 {
          assert r[i] == rest[i - 1];
        } else {
          assert rest[j - 1] in rest;
          assert r[j].name in TallyNames(rest);
          assert r[0] == ts[0];
        }
      }
    } else if ts != [] {
      forall i, j | 0 <= i < j < |r|
        ensures r[i].name != r[j].name
      {
        assert r[j] == ts[j];
        if i > 0 { assert r[i] == ts[i]; }
      }
    }
  }

  /** Ordering 3 and then 2 of the same dish counts 5. */
  lemma ThreeThenTwo(name: string)
    ensures CountOf(AddQuantity(AddQuantity([], name, 3), name, 2), name) == 5
  {
  }

  ghost predicate ByCountDescending(ts: seq<Tally>)
  {
    forall i, j :: 0 <= i < j < |ts| ==> ts[i].count >= ts[j].count
  }

  /** Places `t` behind every entry counting at least as much. */
  function InsertByCount(t: Tally, sorted: seq<Tally>): (r: seq<Tally>)
    ensures |r| == |sorted| + 1
  {
    if sorted == [] then [t]
    else if sorted[0].count >= t.count then [sorted[0]] + InsertByCount(t, sorted[1..])
    else [t] + sorted
  }

  /** `sorted(items, key=count, reverse=True)`: a stable sort by descending count. */
  function SortByCount(ts: seq<Tally>): (r: seq<Tally>)
    ensures |r| == |ts|
  {
    if ts == [] then [] else InsertByCount(ts[|ts| - 1], SortByCount(ts[..|ts| - 1]))
  }

  lemma {:induction false} InsertByCountPermutes(t: Tally, sorted: seq<Tally>)
    ensures multiset(InsertByCount(t, sorted)) == multiset(sorted) + multiset{t}
  {
    if sorted != [] && sorted[0].count >= t.count {
      InsertByCountPermutes(t, sorted[1..]);
      assert sorted == [sorted[0]] + sorted[1..];
    }
  }

  /** Insertion lists nothing but the sorted entries and the new one. */
  lemma {:induction false} InsertByCountLists(t: Tally, sorted: seq<Tally>)
    ensures forall x :: x in InsertByCount(t, sorted) ==> x == t || x in sorted
  {
    if sorted != [] && sorted[0].count >= t.count {
      InsertByCountLists(t, sorted[1..]);
    }
  }

  lemma {:induction false} InsertByCountSorted(t: Tally, sorted: seq<Tally>)
    requires ByCountDescending(sorted)
    ensures ByCountDescending(InsertByCount(t, sorted))
  {
    if sorted != [] && sorted[0].count >= t.count {
      InsertByCountSorted(t, sorted[1..]);
      InsertByCountLists(t, sorted[1..]);
      var rest := InsertByCount(t, sorted[1..]);
      forall j | 0 <= j < |rest|
        ensures sorted[0].count >= rest[j].count
      {
        assert rest[j] in rest;
        if rest[j] != t {
          var k :| 0 <= k < |sorted[1..]| && sorted[1..][k] == rest[j];
          assert sorted[k + 1] == rest[j];
        }
      }
      var r := InsertByCount(t, sorted);
      assert r == [sorted[0]] + rest;
      forall i, j | 0 <= i < j < |r|
        ensures r[i].count >= r[j].count
      {
        assert r[j] == rest[j - 1];
        if i > 0 {
          assert r[i] == rest[i - 1];
        }
      }
    }
  }

  /** The sorted counter runs by descending count. */
  lemma {:induction false} SortByCountSorts(ts: seq<Tally>)
    ensures ByCountDescending(SortByCount(ts))
  {
    if ts != [] {
      SortByCountSorts(ts[..|ts| - 1]);
      InsertByCountSorted(ts[|ts| - 1], SortByCount(ts[..|ts| - 1]));
    }
  }

  /** The sorted counter is a permutation of the counter. */
  lemma {:induction false} SortByCountPermutes(ts: seq<Tally>)
    ensures multiset(SortByCount(ts)) == multiset(ts)
  {
    if ts != [] {
      var init := ts[..|ts| - 1];
      SortByCountPermutes(init);
      InsertByCountPermutes(ts[|ts| - 1], SortByCount(init));
      assert ts == init + [ts[|ts| - 1]];
    }
  }

  /** The entries with a given count, in order. */
  function WithCount(ts: seq<Tally>, c: int): seq<Tally>
  {
    if ts == [] then []
    else (if ts[0].count == c then [ts[0]] else []) + WithCount(ts[1..], c)
  }

  lemma {:induction false} WithCountAppend(a: seq<Tally>, b: seq<Tally>, c: int)
    ensures WithCount(a + b, c) == WithCount(a, c) + WithCount(b, c)
  {
    if a == [] {
      assert a + b == b;
    } else {
      assert (a + b)[0] == a[0] && (a + b)[1..] == a[1..] + b;
      WithCountAppend(a[1..], b, c);
      var head := if a[0].count == c then [a[0]] else [];
      assert WithCount(a + b, c) == head + (WithCount(a[1..], c) + WithCount(b, c));
      assert head + (WithCount(a[1..], c) + WithCount(b, c)) == (head + WithCount(a[1..], c)) + WithCount(b, c);
    }
  }

  lemma {:induction false} InsertByCountStable(t: Tally, sorted: seq<Tally>, c: int)
    requires ByCountDescending(sorted)
    ensures WithCount(InsertByCount(t, sorted), c) == WithCount(sorted, c) + (if t.count == c then [t] else [])
  {
    if sorted == [] {
    } else if sorted[0].count >= t.count {
      InsertByCountStable(t, sorted[1..], c);
    } else if t.count == c {
      NoneAbove(sorted, c);
    }
  }

  /** In a list sorted by descending count, no entry counts more than the first. */
  lemma {:induction false} NoneAbove(sorted: seq<Tally>, c: int)
    requires ByCountDescending(sorted) && sorted != [] && sorted[0].count < c
    ensures WithCount(sorted, c) == []
  {
    if |sorted| > 1 {
      NoneAbove(sorted[1..], c);
    }
  }

  /** Stability: dishes with equal counts keep their order of first order. */
  lemma {:induction false} SortByCountStable(ts: seq<Tally>, c: int)
    ensures WithCount(SortByCount(ts), c) == WithCount(ts, c)
  {
    if ts != [] {
      var init := ts[..|ts| - 1];
      var last := ts[|ts| - 1];
      SortByCountStable(init, c);
      SortByCountSorts(init);
      InsertByCountStable(last, SortByCount(init), c);
      assert ts == init + [last];
      WithCountAppend(init, [last], c);
    }
  }

  function TallyNamesInOrder(ts: seq<Tally>): (names: seq<string>)
    ensures |names| == |ts|
    ensures forall i :: 0 <= i < |ts| ==> names[i] == ts[i].name
  {
    if ts == [] then [] else [ts[0].name] + TallyNamesInOrder(ts[1..])
  }

  /** `popular_dishes_recommendation`: the names of the five most ordered dishes. */
  function PopularDishes(ts: seq<Tally>): seq<string>
  {
    TallyNamesInOrder(Take(SortByCount(ts), MaxRecommendations))
  }

  /** Every dish left out of the top five was ordered no more than every dish in it. */
  lemma PopularDishesAreTop(ts: seq<Tally>)
    ensures |PopularDishes(ts)| == if |ts| < MaxRecommendations then |ts| else MaxRecommendations
    ensures forall i, j :: 0 <= i < MaxRecommendations <= j < |ts| ==>
              SortByCount(ts)[i].count >= SortByCount(ts)[j].count
    ensures forall i :: 0 <= i < |PopularDishes(ts)| ==> PopularDishes(ts)[i] == SortByCount(ts)[i].name
    ensures forall n :: n in PopularDishes(ts) ==> n in TallyNames(ts)
  {
    SortByCountSorts(ts);
    SortByCountPermutes(ts);
    forall n | n in PopularDishes(ts)
      ensures n in TallyNames(ts)
    {
      var i :| 0 <= i < |PopularDishes(ts)| && PopularDishes(ts)[i] == n;
      assert SortByCount(ts)[i] in multiset(ts);
    }
  }
}
