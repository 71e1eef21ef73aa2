/**
 * The three tables of the meal database -- `meals`, `ingredients` and the join
 * table `meal_ingredients` -- as values, with the queries over them that the
 * handlers share.
 */
module Schema {
  import opened Wrappers

  /** A row of `meals` without its id. */
  datatype Meal = Meal(
    title: string,
    description: string,
    mealEntry: int,                 // 0 before, 1 main course, 2 dessert
    mealTime: int,                  // -1 any, 0 lunch, 1 dinner
    season: int,                    // -1 any, 0 spring, 1 summer, 2 autumn, 3 winter
    preparationTime: Option<int>,   // NULL when not given
    cookTime: Option<int>)

  /** A row of `meal_ingredients`. Nothing checks that the ingredient exists. */
  datatype Link = Link(mealId: nat, ingredientId: int)

  /** The whole database: rows keyed by id, the join rows in insertion order, and
      the next id each table hands out. */
  datatype Tables = Tables(
    meals: map<nat, Meal>,
    ingredients: map<nat, string>,
    links: seq<Link>,
    nextMealId: nat,
    nextIngredientId: nat)

  const MealEntries: set<int> := {0, 1, 2}
  const MealTimes: set<int> := {-1, 0, 1}
  const Seasons: set<int> := {-1, 0, 1, 2, 3}

  const Empty: Tables := Tables(map[], map[], [], 1, 1)

  /** The values the create handler lets into a meal row. */
  predicate WellFormedMeal(m: Meal) {
    && m.mealEntry in MealEntries
    && m.mealTime in MealTimes
    && m.season in Seasons
    && (m.preparationTime.Some? ==> m.preparationTime.value >= 0)
    && (m.cookTime.Some? ==> m.cookTime.value >= 0)
  }

  /** What the handlers keep true of the database: ids lie below the counters,
      titles and names are unique, every stored meal is well formed, and every
      join row belongs to a stored meal. */
  predicate Consistent(t: Tables)
    ensures Consistent(t) ==> t.nextMealId !in t.meals && t.nextIngredientId !in t.ingredients
    ensures Consistent(t) ==> forall l :: l in t.links ==> l.mealId in t.meals
  {
    && 0 < t.nextMealId && 0 < t.nextIngredientId
    && (forall id :: id in t.meals ==> 0 < id < t.nextMealId && WellFormedMeal(t.meals[id]))
    && (forall id :: id in t.ingredients ==> 0 < id < t.nextIngredientId)
    && (forall a, b :: a in t.meals && b in t.meals && t.meals[a].title == t.meals[b].title ==> a == b)
    && (forall a, b :: a in t.ingredients && b in t.ingredients && t.ingredients[a] == t.ingredients[b] ==> a == b)
    && (forall k :: 0 <= k < |t.links| ==> t.links[k].mealId in t.meals)
  }

  // ---------------------------------------------------------------------------
  // Selecting rows
  // ---------------------------------------------------------------------------

  /** The ids below `n` that satisfy `keep`, in ascending order: the rows a
      `SELECT ... WHERE` returns, read in storage order. */
  function IdsBelow(keep: nat -> bool, n: nat): (r: seq<nat>)
    ensures forall k :: 0 <= k < |r| ==> r[k] < n && keep(r[k])
    ensures forall id: nat :: id < n && keep(id) ==> id in r
    ensures forall i, j :: 0 <= i < j < |r| ==> r[i] < r[j]
  {
    if n == 0 then []
    else IdsBelow(keep, n - 1) + (if keep(n - 1) then [n - 1] else [])
  }

  /** A condition that exactly one id meets selects exactly that id. */
  lemma {:induction false} IdsBelowOnly(keep: nat -> bool, n: nat, id: nat)
    requires forall x: nat :: x < n ==> (keep(x) <==> x == id)
    ensures IdsBelow(keep, n) == if id < n then [id] else []
  {
    if n > 0 {
      IdsBelowOnly(keep, n - 1, id);
    }
  }

  /** `SELECT id FROM meals WHERE title=?`. */
  function MealIdsTitled(t: Tables, title: string): seq<nat> {
    IdsBelow(Titled(t, title), t.nextMealId)
  }

  function Titled(t: Tables, title: string): nat -> bool {
    id => id in t.meals && t.meals[id].title == title
  }

  /** `SELECT id FROM ingredients WHERE name=?`. */
  function IngredientIdsNamed(t: Tables, name: string): seq<nat> {
    IdsBelow(Named(t, name), t.nextIngredientId)
  }

  function Named(t: Tables, name: string): nat -> bool {
    id => id in t.ingredients && t.ingredients[id] == name
  }

  /** The title query finds a row exactly when some meal has that title. */
  lemma TitleTakenIff(t: Tables, title: string)
    requires Consistent(t)
    ensures MealIdsTitled(t, title) != [] <==> exists id :: id in t.meals && t.meals[id].title == title
  {
    var keep := Titled(t, title);
    var r := IdsBelow(keep, t.nextMealId);
    if r != [] {
      assert keep(r[0]);
    }
    forall id | id in t.meals && t.meals[id].title == title ensures r != [] {
      assert keep(id) && id < t.nextMealId;
      assert id in r;
    }
  }

  /** The name query finds a row exactly when some ingredient has that name. */
  lemma NameTakenIff(t: Tables, name: string)
    requires Consistent(t)
    ensures IngredientIdsNamed(t, name) != [] <==> exists id :: id in t.ingredients && t.ingredients[id] == name
  {
    var keep := Named(t, name);
    var r := IdsBelow(keep, t.nextIngredientId);
    if r != [] {
      assert keep(r[0]);
    }
    forall id | id in t.ingredients && t.ingredients[id] == name ensures r != [] {
      assert keep(id) && id < t.nextIngredientId;
      assert id in r;
    }
  }

  /** With unique titles, the title query returns at most the one meal that has it. */
  lemma TitleQueryUnique(t: Tables, id: nat)
    requires Consistent(t) && id in t.meals
    ensures MealIdsTitled(t, t.meals[id].title) == [id]
  {
    IdsBelowOnly(Titled(t, t.meals[id].title), t.nextMealId, id);
  }

  /** With unique names, the name query returns the one ingredient that has it. */
  lemma NameQueryUnique(t: Tables, id: nat)
    requires Consistent(t) && id in t.ingredients
    ensures IngredientIdsNamed(t, t.ingredients[id]) == [id]
  {
    IdsBelowOnly(Named(t, t.ingredients[id]), t.nextIngredientId, id);
  }

  // ---------------------------------------------------------------------------
  // The join table
  // ---------------------------------------------------------------------------

  /** The join rows that one `INSERT` per listed ingredient appends, in list order. */
  function LinksFor(mealId: nat, ids: seq<int>): (r: seq<Link>)
    ensures |r| == |ids|
    ensures forall k :: 0 <= k < |ids| ==> r[k].mealId == mealId && r[k].ingredientId == ids[k]
  {
    seq(|ids|, k requires 0 <= k < |ids| => Link(mealId, ids[k]))
  }

  /** The elements of `ids` that satisfy `keep`, in order. */
  function Keep(ids: seq<int>, keep: int -> bool): (r: seq<int>)
    ensures |r| <= |ids|
    ensures forall x :: x in r <==> x in ids && keep(x)
  {
    if ids == [] then []
    else Keep(ids[..|ids| - 1], keep) + (if keep(ids[|ids| - 1]) then [ids[|ids| - 1]] else [])
  }

  /** The ingredient ids of the join rows of meal `id` that satisfy `keep`, in
      join-table order (duplicates kept). */
  function LinkedWhere(links: seq<Link>, id: nat, keep: int -> bool): (r: seq<int>)
    ensures |r| <= |links|
    ensures forall x :: x in r <==> keep(x) && Link(id, x) in links
  {
    if links == [] then []
    else
      var l := links[|links| - 1];
      LinkedWhere(links[..|links| - 1], id, keep) + (if l.mealId == id && keep(l.ingredientId) then [l.ingredientId] else [])
  }

  /** Each kept id is listed once per join row of the meal that holds it. */
  lemma {:induction false} LinkedWhereCounts(links: seq<Link>, id: nat, keep: int -> bool)
    ensures forall x :: multiset(LinkedWhere(links, id, keep))[x] == if keep(x) then multiset(links)[Link(id, x)] else 0
    decreases |links|
  {
    if links != [] {
      var init, last := links[..|links| - 1], links[|links| - 1];
      assert links == init + [last];
      LinkedWhereCounts(init, id, keep);
      var kept := if last.mealId == id && keep(last.ingredientId) then [last.ingredientId] else [];
      assert LinkedWhere(links, id, keep) == LinkedWhere(init, id, keep) + kept;
      assert multiset(LinkedWhere(links, id, keep)) == multiset(LinkedWhere(init, id, keep)) + multiset(kept);
      assert multiset(links) == multiset(init) + multiset{last};
    }
  }

  function AnyId(x: int): bool {
    true
  }

  /** `SELECT ingredient_id FROM meal_ingredients WHERE meal_id = ?`. */
  function LinkedIds(links: seq<Link>, id: nat): seq<int> {
    LinkedWhere(links, id, AnyId)
  }

  /** Whether an ingredient id names a stored ingredient. */
  function Known(ingredients: map<nat, string>): int -> bool {
    x => x >= 0 && x as nat in ingredients
  }

  /** `SELECT id FROM ingredients INNER JOIN meal_ingredients ON ... WHERE meal_id=?`:
      only join rows whose ingredient is stored. */
  function KnownLinkedIds(t: Tables, id: nat): seq<int> {
    LinkedWhere(t.links, id, Known(t.ingredients))
  }

  lemma {:induction false} LinkedWhereAppend(a: seq<Link>, b: seq<Link>, id: nat, keep: int -> bool)
    ensures LinkedWhere(a + b, id, keep) == LinkedWhere(a, id, keep) + LinkedWhere(b, id, keep)
    decreases |b|
  {
    if b == [] {
      assert a + b == a;
    } else {
      var b' := b[..|b| - 1];
      assert (a + b)[..|a + b| - 1] == a + b';
      LinkedWhereAppend(a, b', id, keep);
    }
  }

  /** The join rows of one new meal, read back for that meal: its listed
      ingredients that satisfy `keep`, in list order. */
  lemma {:induction false} LinkedWhereOfLinksFor(id: nat, ids: seq<int>, keep: int -> bool)
    ensures LinkedWhere(LinksFor(id, ids), id, keep) == Keep(ids, keep)
    decreases |ids|
  {
    if ids != [] {
      var ids' := ids[..|ids| - 1];
      assert LinksFor(id, ids)[..|ids| - 1] == LinksFor(id, ids');
      LinkedWhereOfLinksFor(id, ids', keep);
    }
  }

  /** Rows of another meal add nothing to a meal's ingredient list. */
  lemma {:induction false} LinkedWhereOther(links: seq<Link>, id: nat, keep: int -> bool)
    requires forall k :: 0 <= k < |links| ==> links[k].mealId != id
    ensures LinkedWhere(links, id, keep) == []
    decreases |links|
  {
    if links != [] {
      LinkedWhereOther(links[..|links| - 1], id, keep);
    }
  }

  lemma {:induction false} KeepAll(ids: seq<int>, keep: int -> bool)
    requires forall k :: 0 <= k < |ids| ==> keep(ids[k])
    ensures Keep(ids, keep) == ids
    decreases |ids|
  {
    if ids != [] {
      var init, last := ids[..|ids| - 1], ids[|ids| - 1];
      KeepAll(init, keep);
      assert keep(last);
      assert Keep(ids, keep) == init + [last];
      assert ids == init + [last];
    }
  }

  /** The join rows for which `drop` is false, in order: a `DELETE FROM
      meal_ingredients WHERE ...`. */
  function DropLinks(links: seq<Link>, drop: Link -> bool): (r: seq<Link>)
    ensures |r| <= |links|
    ensures forall l :: l in r <==> l in links && !drop(l)
  {
    if links == [] then []
    else DropLinks(links[..|links| - 1], drop) + (if drop(links[|links| - 1]) then [] else [links[|links| - 1]])
  }

  /** A delete keeps every row it does not select as many times as it was
      there, and none of the rows it selects. */
  lemma {:induction false} DropLinksCounts(links: seq<Link>, drop: Link -> bool)
    ensures forall l :: multiset(DropLinks(links, drop))[l] == if drop(l) then 0 else multiset(links)[l]
    decreases |links|
  {
    if links != [] {
      var init, last := links[..|links| - 1], links[|links| - 1];
      assert links == init + [last];
      DropLinksCounts(init, drop);
      var kept := if drop(last) then [] else [last];
      assert DropLinks(links, drop) == DropLinks(init, drop) + kept;
      assert multiset(DropLinks(links, drop)) == multiset(DropLinks(init, drop)) + multiset(kept);
      assert multiset(links) == multiset(init) + multiset{last};
    }
  }

  /** Deleting rows no row qualifies for keeps the table as it is. */
  lemma {:induction false} DropNothing(links: seq<Link>, drop: Link -> bool)
    requires forall k :: 0 <= k < |links| ==> !drop(links[k])
    ensures DropLinks(links, drop) == links
    decreases |links|
  {
    if links != [] {
      var init, last := links[..|links| - 1], links[|links| - 1];
      DropNothing(init, drop);
      assert !drop(last);
      assert DropLinks(links, drop) == init + [last];
      assert links == init + [last];
    }
  }

  /** Dropping the same rows a second time drops nothing more. */
  lemma DropLinksTwice(links: seq<Link>, drop: Link -> bool)
    ensures DropLinks(DropLinks(links, drop), drop) == DropLinks(links, drop)
  {
    var r := DropLinks(links, drop);
    forall k | 0 <= k < |r| ensures !drop(r[k]) {
      assert r[k] in r;
    }
    DropNothing(r, drop);
  }
}
