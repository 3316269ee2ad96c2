/**
 * The calendar arithmetic and sales bookkeeping of the seasonal menu
 * (seasonal_menu_items.py).  The clock is not read: the month, the year, the
 * weekday of 1 November and the "YYYY-MM" sales key are parameters.
 */
module SeasonalMenuModel {
  import opened Wrappers

  datatype Season = Spring | Summer | Fall | Winter

  /** The months each season lists. */
  function Months(s: Season): seq<int>
  {
    match s
    case Spring => [3, 4, 5]
    case Summer => [6, 7, 8]
    case Fall => [9, 10, 11]
    case Winter => [12, 1, 2]
  }

  /** The order in which the enumeration is iterated. */
  const AllSeasons: seq<Season> := [Spring, Summer, Fall, Winter]

  /** The first season in `seasons` listing `month`. */
  function FirstListing(seasons: seq<Season>, month: int): Option<Season>
  {
    if seasons == [] then None
    else if month in Months(seasons[0]) then Some(seasons[0])
    else FirstListing(seasons[1..], month)
  }

  /** The season found lists the month, and none is found only when no season lists it. */
  lemma {:induction false} FirstListingFinds(seasons: seq<Season>, month: int)
    ensures var r := FirstListing(seasons, month);
      && (r.Some? ==> r.value in seasons && month in Months(r.value))
      && (r.None? <==> forall s :: s in seasons ==> month !in Months(s))
  {
    if seasons != [] && month !in Months(seasons[0]) {
      FirstListingFinds(seasons[1..], month);
      assert forall s :: s in seasons ==> s == seasons[0] || s in seasons[1..];
    }
  }

  /** `get_current_season`, with WINTER as the fallback for a month no season lists. */
  function CurrentSeason(month: int): Season
  {
    match FirstListing(AllSeasons, month)
    case Some(s) => s
    case None => Winter
  }

  /**
   * Every calendar month is listed by exactly one season, which is the one
   * returned; so the fallback is never taken for a valid month.
   */
  lemma CurrentSeasonListsMonth(month: int)
    requires 1 <= month <= 12
    ensures FirstListing(AllSeasons, month).Some?
    ensures month in Months(CurrentSeason(month))
    ensures forall s :: month in Months(s) ==> s == CurrentSeason(month)
  {
    FirstListingFinds(AllSeasons, month);
    assert month in Months(Spring) || month in Months(Summer) || month in Months(Fall) || month in Months(Winter);
    assert Spring in AllSeasons && Summer in AllSeasons && Fall in AllSeasons && Winter in AllSeasons;
  }

  /** Python's `%` by 12: for a positive divisor it agrees with Dafny's. */
  function MonthDistance(current: int, peak: int): int
  {
    var forward := (current - peak) % 12;
    var backward := (peak - current) % 12;
    if forward <= backward then forward else backward
  }

  /** The distance round the year between two months: symmetric, at most half a year, zero only for the same month. */
  lemma MonthDistanceIsCircular(current: int, peak: int)
    ensures MonthDistance(current, peak) == MonthDistance(peak, current)
    ensures 0 <= MonthDistance(current, peak) <= 6
    ensures MonthDistance(current, peak) == 0 <==> (current - peak) % 12 == 0
    ensures 1 <= current <= 12 && 1 <= peak <= 12 ==> (MonthDistance(current, peak) == 0 <==> current == peak)
  {
    var f := (current - peak) % 12;
    var b := (peak - current) % 12;
    assert f == 0 <==> b == 0;
    assert f != 0 ==> f + b == 12;
  }

  /**
   * The distance from `current` to the nearest month listed by one of the
   * peak seasons, `None` (Python's infinity) when there is none.
   */
  method NearestPeakDistance(current: int, peakSeasons: seq<Season>) returns (d: Option<int>)
    ensures d.None? <==> peakSeasons == []
    ensures d.Some? ==> exists s, m :: s in peakSeasons && m in Months(s) && d.value == MonthDistance(current, m)
    ensures d.Some? ==> forall s, m :: s in peakSeasons && m in Months(s) ==> d.value <= MonthDistance(current, m)
  {
    d := None;
    for i := 0 to |peakSeasons|
      invariant d.None? <==> i == 0
      invariant d.Some? ==> exists s, m :: s in peakSeasons[..i] && m in Months(s) && d.value == MonthDistance(current, m)
      invariant forall s, m :: s in peakSeasons[..i] && m in Months(s) ==> d.Some? && d.value <= MonthDistance(current, m)
    {
      assert peakSeasons[..i + 1] == peakSeasons[..i] + [peakSeasons[i]];
      var before := d;
      d := NearestMonth(current, Months(peakSeasons[i]), d);
      if d != before {
        var m :| m in Months(peakSeasons[i]) && d.value == MonthDistance(current, m);
        assert peakSeasons[i] in peakSeasons[..i + 1];
      }
    }
    assert peakSeasons[..|peakSeasons|] == peakSeasons;
  }

  /** The inner loop of the scan: lowers the best distance so far to the nearest of `months`. */
  method NearestMonth(current: int, months: seq<int>, best: Option<int>) returns (d: Option<int>)
    ensures d.None? <==> best.None? && months == []
    ensures d == best || exists m :: m in months && d.value == MonthDistance(current, m)
    ensures best.Some? ==> d.value <= best.value
    ensures forall m :: m in months ==> d.Some? && d.value <= MonthDistance(current, m)
  {
    d := best;
    for j := 0 to |months|
      invariant d.None? <==> best.None? && j == 0
      invariant d == best || exists m :: m in months[..j] && d.value == MonthDistance(current, m)
      invariant best.Some? ==> d.Some? && d.value <= best.value
      invariant forall m :: m in months[..j] ==> d.Some? && d.value <= MonthDistance(current, m)
    {
      var distance := MonthDistance(current, months[j]);
      assert months[..j + 1] == months[..j] + [months[j]];
      if d.None? || distance < d.value {
        d := Some(distance);
      }
    }
    assert months[..|months|] == months;
  }


  /** `_calculate_easter_date` (the anonymous Gregorian computus); `None` where `datetime` rejects the year. */
  function EasterDate(year: int): (r: Option<(int, int)>)
    ensures r.None? <==> !(1 <= year <= 9999)
  {
    if !(1 <= year <= 9999) then None
    else
      var a := year % 19;
      var b := year / 100;
      var c := year % 100;
      var d := b / 4;
      var e := b % 4;
      var f := (b + 8) / 25;
      var g := (b - f + 1) / 3;
      var h := (19 * a + b - d - g + 15) % 30;
      var i := c / 4;
      var k := c % 4;
      var l := (32 + 2 * e + 2 * i - h - k) % 7;
      var m := (a + 11 * h + 22 * l) / 451;
      Some(((h + l - 7 * m + 114) / 31, (h + l - 7 * m + 114) % 31 + 1))
  }

  /** Bounds on the computus' last step: the result lies between 22 March and 25 April. */
  lemma {:induction false} EasterOffsetBounds(a: int, h: int, l: int)
    requires 0 <= a < 19 && 0 <= h < 30 && 0 <= l < 7
    ensures var m := (a + 11 * h + 22 * l) / 451;
      114 <= h + l - 7 * m + 114 <= 148
  {
    var s := a + 11 * h + 22 * l;
    assert s <= 18 + 11 * 29 + 22 * 6;
    if h + l <= 6 {
      assert 11 * h + 22 * l <= 22 * (h + l) <= 132;
      assert s / 451 == 0;
    } else if s < 451 {
      assert s / 451 == 0;
      if h + l >= 35 {
        assert false;
      }
    } else {
      assert s / 451 == 1;
    }
  }

  /** For every year `datetime` accepts, Easter falls on a real date between 22 March and 25 April. */
  lemma EasterInSpring(year: int)
    requires 1 <= year <= 9999
    ensures var (month, day) := EasterDate(year).value;
      (month == 3 && 22 <= day <= 31) || (month == 4 && 1 <= day <= 25)
  {
    var a := year % 19;
    var b := year / 100;
    var c := year % 100;
    var d := b / 4;
    var e := b % 4;
    var f := (b + 8) / 25;
    var g := (b - f + 1) / 3;
    var h := (19 * a + b - d - g + 15) % 30;
    var i := c / 4;
    var k := c % 4;
    var l := (32 + 2 * e + 2 * i - h - k) % 7;
    EasterOffsetBounds(a, h, l);
  }

  lemma Easter2024()
    ensures EasterDate(2024) == Some((3, 31))
  {
    assert 2024 % 19 == 10 && 2024 / 100 == 20 && 2024 % 100 == 24;
    assert (19 * 10 + 20 - 5 - 6 + 15) % 30 == 4;
    assert (32 + 2 * 0 + 2 * 6 - 4 - 0) % 7 == 5;
    assert (10 + 11 * 4 + 22 * 5) / 451 == 0;
  }

  lemma Easter2025()
    ensures EasterDate(2025) == Some((4, 20))
  {
    assert 2025 % 19 == 11 && 2025 / 100 == 20 && 2025 % 100 == 25;
    assert (19 * 11 + 20 - 5 - 6 + 15) % 30 == 23;
    assert (32 + 2 * 0 + 2 * 6 - 23 - 1) % 7 == 6;
    assert (11 + 11 * 23 + 22 * 6) / 451 == 0;
  }

  /** Python's `weekday()` numbering: Monday is 0. */
  const Thursday: int := 3
  const Friday: int := 4

  /**
   * Steps from 1 November to the first day with the target weekday and adds
   * three weeks: the fourth such weekday of November.
   */
  method FourthWeekdayOfNovember(novFirstWeekday: int, target: int) returns (day: int)
    requires 0 <= novFirstWeekday < 7 && 0 <= target < 7
    ensures 22 <= day <= 28
    ensures (novFirstWeekday + day - 1) % 7 == target
  {
    ghost var gap := if novFirstWeekday <= target then target - novFirstWeekday else target - novFirstWeekday + 7;
    var first := 1;
    var weekday := novFirstWeekday;
    while weekday != target
      invariant 1 <= first <= gap + 1
      invariant weekday == if novFirstWeekday + first - 1 < 7 then novFirstWeekday + first - 1 else novFirstWeekday + first - 8
      decreases gap + 1 - first
    {
      first := first + 1;
      weekday := if weekday == 6 then 0 else weekday + 1;
    }
    day := first + 21;
    if novFirstWeekday + first - 1 < 7 {
      assert novFirstWeekday + day - 1 == target + 21;
    } else {
      assert novFirstWeekday + day - 1 == target + 28;
    }
  }


  /** `_calculate_thanksgiving_date` as written: it waits for weekday 4, a Friday. */
  method ThanksgivingAsWritten(novFirstWeekday: int) returns (day: int)
    requires 0 <= novFirstWeekday < 7
    ensures 22 <= day <= 28 && (novFirstWeekday + day - 1) % 7 == Friday
  {
    day := FourthWeekdayOfNovember(novFirstWeekday, Friday);
  }

  /** Thanksgiving as intended: the fourth Thursday of November. */
  method Thanksgiving(novFirstWeekday: int) returns (day: int)
    requires 0 <= novFirstWeekday < 7
    ensures 22 <= day <= 28 && (novFirstWeekday + day - 1) % 7 == Thursday
  {
    day := FourthWeekdayOfNovember(novFirstWeekday, Thursday);
  }

  /** 1 November 2024 was a Friday: the code as written gives the 22nd, Thanksgiving was the 28th. */
  method Thanksgiving2024() returns (asWritten: int, intended: int)
    ensures asWritten == 22 && intended == 28
  {
    asWritten := ThanksgivingAsWritten(Friday);
    intended := Thanksgiving(Friday);
  }

  /** A `defaultdict(int)` read. */
  function SalesOf(history: map<string, int>, key: string): int
  {
    if key in history then history[key] else 0
  }

  /** A dish of the seasonal menu; prices and ingredients are not modelled. */
  class MenuItem {
    const name: string
    const description: string
    const seasons: seq<Season>
    var salesHistory: map<string, int>

    constructor (name: string, description: string, seasons: seq<Season>)
      ensures this.name == name && this.description == description && this.seasons == seasons
      ensures salesHistory == map[]
    {
      this.name, this.description, this.seasons := name, description, seasons;
      salesHistory := map[];
    }
  }

  class SeasonalMenu {
    var menuItems: seq<MenuItem>

    constructor ()
      ensures menuItems == []
    {
      menuItems := [];
    }

    /** `add_item`. */
    method AddItem(item: MenuItem)
      modifies this
      ensures menuItems == old(menuItems) + [item]
    {
      menuItems := menuItems + [item];
    }

    /**
     * `record_sale`: adds the quantity to the first item of that name under
     * the month's key; every other item, and every other key, is unchanged.
     */
    method RecordSale(itemName: string, quantity: int, dateKey: string) returns (ghost matched: Option<nat>)
      modifies set it | it in menuItems
      ensures matched.None? ==> forall it :: it in menuItems ==> it.name != itemName
      ensures matched.None? ==> forall it :: it in menuItems ==> it.salesHistory == old(it.salesHistory)
      ensures matched.Some? ==> matched.value < |menuItems| && menuItems[matched.value].name == itemName
      ensures matched.Some? ==> forall k :: 0 <= k < matched.value ==> menuItems[k].name != itemName
      ensures matched.Some? ==> var it := menuItems[matched.value];
        it.salesHistory == old(it.salesHistory)[dateKey := SalesOf(old(it.salesHistory), dateKey) + quantity]
      ensures matched.Some? ==> forall o :: o in menuItems && o != menuItems[matched.value] ==> o.salesHistory == old(o.salesHistory)
    {
      for i := 0 to |menuItems|
        invariant forall k :: 0 <= k < i ==> menuItems[k].name != itemName
      {
        var item := menuItems[i];
        if item.name == itemName {
          item.salesHistory := item.salesHistory[dateKey := SalesOf(item.salesHistory, dateKey) + quantity];
          return Some(i);
        }
      }
      return None;
    }
  }

  /** Two sales of the same dish in one month add up under that month's key. */
  method TwoSales() returns (total: int)
    ensures total == 25
  {
    var menu := new SeasonalMenu();
    var salad := new MenuItem("Spring Salad", "Fresh greens with seasonal vegetables", [Spring]);
    var latte := new MenuItem("Pumpkin Spice Latte", "Warm spiced coffee drink", [Fall]);
    menu.AddItem(salad);
    menu.AddItem(latte);
    var _ := menu.RecordSale("Spring Salad", 10, "2024-04");
    var _ := menu.RecordSale("Spring Salad", 15, "2024-04");
    total := SalesOf(salad.salesHistory, "2024-04");
  }
}
