/**
 * The database the handlers share, as an object whose tables the handlers
 * update in place. Each method is one request; its new state is the one the
 * matching function of Handlers gives.
 */
module Database {
  import opened Wrappers
  import opened Schema
  import opened Forms
  import opened Handlers

  class Store {
    var meals: map<nat, Meal>
    var ingredients: map<nat, string>
    var links: seq<Link>
    var nextMealId: nat
    var nextIngredientId: nat

    function State(): Tables
      reads this
    {
      Tables(meals, ingredients, links, nextMealId, nextIngredientId)
    }

    predicate Valid()
      reads this
    {
      Consistent(State())
    }

    /** Empty tables; both tables hand out ids from 1. */
    constructor ()
      ensures Valid() && State() == Empty
    {
      meals, ingredients, links := map[], map[], [];
      nextMealId, nextIngredientId := 1, 1;
    }

    /** `POST /api/meals`. */
    method CreateMeal(lib: Libs, form: MealForm) returns (reply: Result<nat, int>)
      requires Valid()
      modifies this
      ensures Valid()
      ensures Outcome(reply, State()) == Handlers.CreateMeal(lib, old(State()), form)
    {
      var v := ValidateMeal(lib, form);
      if v.Failure? {
        return Failure(v.error);
      }
      reply := InsertMeal(v.value);
    }

    /** The store part of `POST /api/meals`: the duplicate-title check, the
        insert, the id read back by title and one join row per ingredient. */
    method InsertMeal(d: Draft) returns (reply: Result<nat, int>)
      requires Valid() && WellFormedMeal(d.meal)
      modifies this
      ensures Valid()
      ensures Outcome(reply, State()) == CreateMealRows(old(State()), d)
    {
      ghost var before := State();
      if MealIdsTitled(State(), d.meal.title) != [] {
        return Failure(2);
      }
      InsertedTitleFound(before, d.meal);
      meals := meals[nextMealId := d.meal];
      nextMealId := nextMealId + 1;
      assert State() == before.(meals := before.meals[before.nextMealId := d.meal], nextMealId := before.nextMealId + 1);
      var found := MealIdsTitled(State(), d.meal.title);
      var mealId := found[0];
      AddLinks(mealId, d.ingredients);
      InsertMealOutcome(before, d, State());
      reply := Success(mealId);
    }

    /** One `meal_ingredients` row per listed ingredient id, in order. */
    method AddLinks(mealId: nat, ids: seq<int>)
      modifies this
      ensures links == old(links) + LinksFor(mealId, ids)
      ensures meals == old(meals) && ingredients == old(ingredients)
      ensures nextMealId == old(nextMealId) && nextIngredientId == old(nextIngredientId)
    {
      var i := 0;
      while i < |ids|
        invariant 0 <= i <= |ids|
        invariant links == old(links) + LinksFor(mealId, ids[..i])
        invariant meals == old(meals) && ingredients == old(ingredients)
        invariant nextMealId == old(nextMealId) && nextIngredientId == old(nextIngredientId)
      {
        assert LinksFor(mealId, ids[..i + 1]) == LinksFor(mealId, ids[..i]) + [Link(mealId, ids[i])];
        links := links + [Link(mealId, ids[i])];
        i := i + 1;
      }
      assert ids[..i] == ids;
    }

    /** `GET /api/meals/<id>`. */
    method GetMeal(id: nat) returns (reply: Result<MealView, int>)
      requires Valid()
      ensures reply == Handlers.GetMeal(State(), id)
    {
      if id !in meals {
        return Failure(1);
      }
      var ids := JoinedIngredients(id);
      reply := Success(MealView(id, meals[id], ids));
    }

    /** `SELECT id FROM ingredients INNER JOIN meal_ingredients ON ... WHERE
        meal_id = ?`: one pass over the join rows, in order, keeping those of
        the meal whose ingredient is stored. */
    method JoinedIngredients(id: nat) returns (ids: seq<int>)
      ensures ids == KnownLinkedIds(State(), id)
    {
      ids := [];
      var k := 0;
      while k < |links|
        invariant 0 <= k <= |links|
        invariant ids == LinkedWhere(links[..k], id, Known(ingredients))
      {
        assert links[..k + 1][..k] == links[..k];
        var l := links[k];
        if l.mealId == id && l.ingredientId >= 0 && l.ingredientId as nat in ingredients {
          ids := ids + [l.ingredientId];
        }
        k := k + 1;
      }
      assert links[..k] == links;
    }

    /** `DELETE /api/meals/<id>`. */
    method DeleteMeal(id: nat)
      requires Valid()
      modifies this
      ensures Valid()
      ensures State() == Handlers.DeleteMeal(old(State()), id).after
    {
      DeleteMealKeepsConsistent(State(), id);
      meals := meals - {id};
      links := DropLinks(links, OfMeal(id));
    }

    /** `GET /api/meals` in search mode. */
    method SearchMeals(lib: Libs, args: SearchArgs) returns (reply: Result<seq<MealView>, int>)
      requires Valid()
      ensures reply == Search(lib, State(), args)
    {
      var f := BuildFilter(lib, args);
      if f.Failure? {
        return Failure(f.error);
      }
      reply := Success(Handlers.SearchMeals(State(), f.value));
    }

    /** `POST /api/ingredients`. */
    method CreateIngredient(lib: Libs, name: Option<string>) returns (reply: Result<nat, int>)
      requires Valid()
      modifies this
      ensures Valid()
      ensures Outcome(reply, State()) == Handlers.CreateIngredient(lib, old(State()), name)
    {
      if !PyText.Given(name) {
        return Failure(1);
      }
      reply := InsertIngredient(IngredientName(lib, name.value));
    }

    /** The store part of `POST /api/ingredients`: the duplicate-name check, the
        insert and the id read back by name. */
    method InsertIngredient(n: string) returns (reply: Result<nat, int>)
      requires Valid()
      modifies this
      ensures Valid()
      ensures Outcome(reply, State()) == CreateIngredientRow(old(State()), n)
    {
      ghost var before := State();
      if IngredientIdsNamed(State(), n) != [] {
        return Failure(2);
      }
      InsertedNameFound(before, n);
      ingredients := ingredients[nextIngredientId := n];
      nextIngredientId := nextIngredientId + 1;
      assert State() == before.(ingredients := before.ingredients[before.nextIngredientId := n],
                                nextIngredientId := before.nextIngredientId + 1);
      var found := IngredientIdsNamed(State(), n);
      reply := Success(found[0]);
      InsertIngredientOutcome(before, n, State());
    }

    /** `GET /api/ingredients/<id>`. */
    method GetIngredient(id: nat) returns (reply: Result<IngredientView, int>)
      requires Valid()
      ensures reply == Handlers.GetIngredient(State(), id)
    {
      if id !in ingredients {
        return Failure(1);
      }
      reply := Success(IngredientView(id, ingredients[id]));
    }

    /** `DELETE /api/ingredients/<id>`, as the handler is written. */
    method DeleteIngredient(id: nat)
      requires Valid()
      modifies this
      ensures Valid()
      ensures State() == Handlers.DeleteIngredient(old(State()), id).after
    {
      DeleteIngredientKeepsConsistent(State(), id);
      ingredients := ingredients - {id};
      links := DropLinks(links, OfMeal(id));
    }

    /** `GET /api/ingredients`. */
    method ListIngredients(lib: Libs, mode: Option<string>, q: Option<string>) returns (reply: Result<seq<IngredientView>, int>)
      requires Valid()
      ensures reply == Handlers.ListIngredients(lib, State(), mode, q)
    {
      var m := if PyText.Given(mode) then mode.value else "search";
      if !PyText.Given(q) {
        return Failure(1);
      }
      if m == "search" {
        var views := Select(NameLike(State(), "%" + Normalize(lib, q.value) + "%"));
        return Success(views);
      }
      if m == "many" {
        var items := lib.jsonLoads(q.value);
        if items.None? {
          return Failure(3);
        }
        var views := Select(AmongItems(State(), items.value));
        return Success(views);
      }
      reply := Failure(2);
    }

    /** `SELECT * FROM ingredients WHERE ...`: one pass over the ids in storage
        order, keeping the rows that meet the condition. */
    method Select(keep: nat -> bool) returns (views: seq<IngredientView>)
      requires forall id: nat :: keep(id) ==> id in ingredients
      ensures views == SelectIngredients(State(), keep)
    {
      views := [];
      var i := 0;
      while i < nextIngredientId
        invariant 0 <= i <= nextIngredientId
        invariant views == IngredientViews(State(), IdsBelow(keep, i))
      {
        if keep(i) {
          views := views + [IngredientView(i, ingredients[i])];
        }
        i := i + 1;
      }
    }
  }
}
