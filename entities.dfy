/**
 * The two kinds of entity of the recommendation engine (main.py:8-34) and the
 * nutrition score computed once when a food is created (main.py:632-638).
 *
 * Entities are addressed by handles: a food by its index in the catalog's
 * `foodItems`, a user by its index in `users`.  Python uses the objects
 * themselves as graph keys; an index is the same identity, since nothing is
 * ever deleted.
 */
module Entities {
  import opened Wrappers

  /** A food record.  `rating` and `promotion` are the fields the engine updates after creation. */
  datatype Food = Food(
    name: string,
    cuisineType: string,
    calories: int,
    nutritionScore: real,
    rating: int,
    dietaryRestrictions: string,
    allergens: seq<string>,
    mealType: string,
    flavorProfile: string,
    timestamp: nat,
    promotion: Option<string>)

  /** One entry of a user's order history: the food name and the quantity ordered. */
  datatype Order = Order(foodName: string, quantity: int)

  /**
   * A user record.  `allergens` is the string the catalog passes when it creates
   * a user ("None", main.py:368), not a list.
   */
  datatype User = User(
    name: string,
    password: string,
    address: string,
    favCuisine: string,
    dietaryPref: string,
    allergens: string,
    orderHistory: seq<Order>,
    ratings: map<string, int>)

  /** A vertex of the user/food relationship graph. */
  datatype Vertex = UserV(user: nat) | FoodV(food: nat)

  /**
   * The nutrition score: 4 per gram of protein and of carbohydrate, 9 per gram
   * of fat, minus a tenth of the calories, plus 2 per listed vitamin and 1.5
   * per listed mineral.  Exact rationals stand for Python's floats.
   */
  function NutritionScore(calories: int, proteins: int, fats: int, carbs: int,
                          vitamins: seq<string>, minerals: seq<string>): real
  {
    var base := (proteins * 4) as real + (fats * 9) as real + (carbs * 4) as real - calories as real * 0.1;
    base + |vitamins| as real * 2.0 + |minerals| as real * 1.5
  }

  /** Each additional vitamin raises the score by 2 and each mineral by 1.5, whatever else is listed. */
  lemma MicronutrientBonus(calories: int, proteins: int, fats: int, carbs: int,
                           vitamins: seq<string>, minerals: seq<string>, v: string, m: string)
    ensures NutritionScore(calories, proteins, fats, carbs, vitamins + [v], minerals)
            == NutritionScore(calories, proteins, fats, carbs, vitamins, minerals) + 2.0
    ensures NutritionScore(calories, proteins, fats, carbs, vitamins, minerals + [m])
            == NutritionScore(calories, proteins, fats, carbs, vitamins, minerals) + 1.5
  {
  }

  /** The Margherita Pizza of the demo catalog: 15 g protein, 12 g fat, 30 g carbohydrate, 300 kcal. */
  lemma MargheritaScore()
    ensures NutritionScore(300, 15, 12, 30, ["Vitamin A", "Calcium"], ["Iron"]) == 263.5
  {
  }
}
