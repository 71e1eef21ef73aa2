/**
 * What each handler of the meal and ingredient API does to the tables and
 * answers, as functions of the tables before the request.
 */
module Handlers {
  import opened Wrappers
  import opened PyText
  import opened SqlLike
  import opened Json
  import opened Schema
  import opened Forms

  /** A handler's reply (a value, or an error code) and the tables after it. */
  datatype Outcome<T> = Outcome(reply: Result<T, int>, after: Tables)

  /** A meal object of a response. */
  datatype MealView = MealView(id: nat, meal: Meal, ingredients: seq<int>)

  /** An ingredient object of a response. */
  datatype IngredientView = IngredientView(id: nat, name: string)

  // ---------------------------------------------------------------------------
  // POST /api/meals
  // ---------------------------------------------------------------------------

  /** The store part of meal creation: the duplicate-title check, the insert, the
      id read back by title, and one join row per listed ingredient. */
  function CreateMealRows(t: Tables, d: Draft): (o: Outcome<nat>)
    ensures o.reply.Failure? <==> MealIdsTitled(t, d.meal.title) != []
    ensures o.reply.Failure? ==> o.reply.error == 2 && o.after == t
    ensures o.reply.Success? ==> o.after.ingredients == t.ingredients
  {
    if MealIdsTitled(t, d.meal.title) != [] then Outcome(Failure(2), t)
    else
      var inserted := t.(meals := t.meals[t.nextMealId := d.meal], nextMealId := t.nextMealId + 1);
      var found := MealIdsTitled(inserted, d.meal.title);
      assert Titled(inserted, d.meal.title)(t.nextMealId);
      var id := found[0];
      Outcome(Success(id), inserted.(links := t.links + LinksFor(id, d.ingredients)))
  }

  /** `POST /api/meals`: validation first, then the store. */
  function CreateMeal(lib: Libs, t: Tables, f: MealForm): (o: Outcome<nat>)
    ensures !Given(f.title) ==> o == Outcome(Failure(1), t)
    ensures o.reply.Failure? ==> o.after == t && o.reply.error in {1, 2, 3, 4, 5, 6, 7, 8, 9}
    ensures o.after.ingredients == t.ingredients && o.after.nextIngredientId == t.nextIngredientId
  {
    match ValidateMeal(lib, f)
    case Failure(e) => Outcome(Failure(e), t)
    case Success(d) => CreateMealRows(t, d)
  }

  /** The title query after the insert finds the inserted meal alone, when it
      found none before. */
  lemma InsertedTitleFound(t: Tables, m: Meal)
    requires MealIdsTitled(t, m.title) == []
    ensures MealIdsTitled(t.(meals := t.meals[t.nextMealId := m], nextMealId := t.nextMealId + 1), m.title) == [t.nextMealId]
  {
    var inserted := t.(meals := t.meals[t.nextMealId := m], nextMealId := t.nextMealId + 1);
    var keep := Titled(inserted, m.title);
    forall x: nat | x < inserted.nextMealId ensures keep(x) <==> x == t.nextMealId {
      if x < t.nextMealId {
        assert !Titled(t, m.title)(x);
        assert x in inserted.meals <==> x in t.meals;
        assert x in t.meals ==> inserted.meals[x] == t.meals[x];
      }
    }
    IdsBelowOnly(keep, inserted.nextMealId, t.nextMealId);
  }

  /** A title no meal has is inserted: the reply is the next id and the tables
      gain the meal and its join rows. */
  lemma CreateMealRowsInserts(t: Tables, d: Draft)
    requires MealIdsTitled(t, d.meal.title) == []
    ensures CreateMealRows(t, d) == Outcome(Success(t.nextMealId),
                                            t.(meals := t.meals[t.nextMealId := d.meal],
                                               links := t.links + LinksFor(t.nextMealId, d.ingredients),
                                               nextMealId := t.nextMealId + 1))
  {
    InsertedTitleFound(t, d.meal);
    var inserted := t.(meals := t.meals[t.nextMealId := d.meal], nextMealId := t.nextMealId + 1);
    assert MealIdsTitled(inserted, d.meal.title)[0] == t.nextMealId;
  }

  /** The tables after a successful insert, for a title no stored meal has: the
      meal row under the next id and its join rows. They are consistent, and they
      are the outcome of the store part of the request. */
  lemma InsertMealOutcome(t: Tables, d: Draft, u: Tables)
    requires Consistent(t) && WellFormedMeal(d.meal) && MealIdsTitled(t, d.meal.title) == []
    requires u == t.(meals := t.meals[t.nextMealId := d.meal],
                     links := t.links + LinksFor(t.nextMealId, d.ingredients),
                     nextMealId := t.nextMealId + 1)
    ensures Consistent(u)
    ensures CreateMealRows(t, d) == Outcome(Success(t.nextMealId), u)
  {
    UnusedTitle(t, d.meal.title);
    InsertMealKeepsConsistent(t, d.meal, d.ingredients);
    CreateMealRowsInserts(t, d);
  }

  /** The id read back after the insert is the id the insert used: no other meal
      below it has the title, or the duplicate check would have refused it. */
  lemma CreateMealRowsFresh(t: Tables, d: Draft)
    requires CreateMealRows(t, d).reply.Success?
    ensures CreateMealRows(t, d).reply.value == t.nextMealId
    ensures CreateMealRows(t, d).after == t.(meals := t.meals[t.nextMealId := d.meal],
                                             links := t.links + LinksFor(t.nextMealId, d.ingredients),
                                             nextMealId := t.nextMealId + 1)
  {
    CreateMealRowsInserts(t, d);
  }

  /** With unique titles, a title the query does not find belongs to no meal. */
  lemma UnusedTitle(t: Tables, title: string)
    requires Consistent(t) && MealIdsTitled(t, title) == []
    ensures forall id :: id in t.meals ==> t.meals[id].title != title
  {
    TitleTakenIff(t, title);
  }

  /** Inserting a well-formed meal under the next id, with a title no meal has,
      and its join rows keeps the database consistent. */
  lemma InsertMealKeepsConsistent(t: Tables, m: Meal, ids: seq<int>)
    requires Consistent(t) && WellFormedMeal(m)
    requires forall id :: id in t.meals ==> t.meals[id].title != m.title
    ensures Consistent(t.(meals := t.meals[t.nextMealId := m],
                          links := t.links + LinksFor(t.nextMealId, ids),
                          nextMealId := t.nextMealId + 1))
  {
    var id := t.nextMealId;
    var u := t.(meals := t.meals[id := m], links := t.links + LinksFor(id, ids), nextMealId := id + 1);
    forall a, b | a in u.meals && b in u.meals && u.meals[a].title == u.meals[b].title ensures a == b {
      if a != id && b != id {
        assert t.meals[a].title == t.meals[b].title;
      }
    }
    forall k | 0 <= k < |u.links| ensures u.links[k].mealId in u.meals {
      if k < |t.links| {
        assert u.links[k] == t.links[k];
      } else {
        assert u.links[k] == LinksFor(id, ids)[k - |t.links|];
      }
    }
  }

  /** Meal creation keeps the database consistent, whatever the form. */
  lemma CreateMealKeepsConsistent(lib: Libs, t: Tables, f: MealForm)
    requires Consistent(t)
    ensures Consistent(CreateMeal(lib, t, f).after)
  {
    var v := ValidateMeal(lib, f);
    if v.Success? {
      var d := v.value;
      if CreateMealRows(t, d).reply.Success? {
        CreateMealRowsFresh(t, d);
        TitleTakenIff(t, d.meal.title);
        InsertMealKeepsConsistent(t, d.meal, d.ingredients);
      }
    }
  }

  /** Meal creation, case by case: a form the validator refuses leaves the tables
      as they were with its code; a valid form whose title is taken answers 2;
      any other inserts the meal under the next id with its join rows. */
  lemma CreateMealCases(lib: Libs, t: Tables, f: MealForm)
    ensures ValidateMeal(lib, f).Failure? ==>
              CreateMeal(lib, t, f) == Outcome(Failure(ValidateMeal(lib, f).error), t)
    ensures ValidateMeal(lib, f).Success? && MealIdsTitled(t, ValidateMeal(lib, f).value.meal.title) != [] ==>
              CreateMeal(lib, t, f) == Outcome(Failure(2), t)
    ensures ValidateMeal(lib, f).Success? && MealIdsTitled(t, ValidateMeal(lib, f).value.meal.title) == [] ==>
              var d := ValidateMeal(lib, f).value;
              CreateMeal(lib, t, f)
              == Outcome(Success(t.nextMealId),
                         t.(meals := t.meals[t.nextMealId := d.meal],
                            links := t.links + LinksFor(t.nextMealId, d.ingredients),
                            nextMealId := t.nextMealId + 1))
  {
    var v := ValidateMeal(lib, f);
    if v.Success? && MealIdsTitled(t, v.value.meal.title) == [] {
      CreateMealRowsFresh(t, v.value);
    }
  }

  // ---------------------------------------------------------------------------
  // GET and DELETE /api/meals/<id>
  // ---------------------------------------------------------------------------

  /** `GET /api/meals/<id>`: the meal row, with the ingredient ids the inner join
      with `ingredients` keeps; code 1 when there is no such meal. */
  function GetMeal(t: Tables, id: nat): (r: Result<MealView, int>)
    ensures r.Failure? <==> id !in t.meals
    ensures r.Failure? ==> r.error == 1
    ensures r.Success? ==> r.value.id == id && r.value.meal == t.meals[id]
    ensures r.Success? ==> forall x :: x in r.value.ingredients <==> Link(id, x) in t.links && x >= 0 && x as nat in t.ingredients
  {
    if id !in t.meals then Failure(1)
    else Success(MealView(id, t.meals[id], KnownLinkedIds(t, id)))
  }

  /** `GET /api/meals/<id>` lists a stored ingredient once per join row that
      links it to the meal, and no other id. */
  lemma GetMealCounts(t: Tables, id: nat)
    requires id in t.meals
    ensures var r := GetMeal(t, id);
      && r.Success?
      && forall x :: multiset(r.value.ingredients)[x]
           == if x >= 0 && x as nat in t.ingredients then multiset(t.links)[Link(id, x)] else 0
  {
    LinkedWhereCounts(t.links, id, Known(t.ingredients));
  }

  /** The join rows of one meal. */
  function OfMeal(id: nat): Link -> bool {
    (l: Link) => l.mealId == id
  }

  /** `DELETE /api/meals/<id>`: the meal row and every join row of that meal
      go; the reply is always success. */
  function DeleteMeal(t: Tables, id: nat): (o: Outcome<()>)
    ensures o.reply.Success?
    ensures o.after.meals == t.meals - {id} && o.after.ingredients == t.ingredients
    ensures forall l :: multiset(o.after.links)[l] == if l.mealId == id then 0 else multiset(t.links)[l]
    ensures o.after.nextMealId == t.nextMealId && o.after.nextIngredientId == t.nextIngredientId
  {
    DropLinksCounts(t.links, OfMeal(id));
    Outcome(Success(()), t.(meals := t.meals - {id}, links := DropLinks(t.links, OfMeal(id))))
  }

  /** A stored meal owns no join row under the next id. */
  lemma {:induction false} NoLinksOfNextMeal(t: Tables, keep: int -> bool)
    requires Consistent(t)
    ensures LinkedWhere(t.links, t.nextMealId, keep) == []
  {
    forall k | 0 <= k < |t.links| ensures t.links[k].mealId != t.nextMealId {
    }
    LinkedWhereOther(t.links, t.nextMealId, keep);
  }

  /** The rows of a new meal, read back by id: the row as inserted, with those
      listed ingredients that are stored. */
  lemma GetAfterInsert(t: Tables, m: Meal, ids: seq<int>)
    requires Consistent(t)
    ensures var id := t.nextMealId;
      GetMeal(t.(meals := t.meals[id := m], links := t.links + LinksFor(id, ids), nextMealId := id + 1), id)
        == Success(MealView(id, m, Keep(ids, Known(t.ingredients))))
  {
    var id := t.nextMealId;
    var keep := Known(t.ingredients);
    LinkedWhereAppend(t.links, LinksFor(id, ids), id, keep);
    NoLinksOfNextMeal(t, keep);
    LinkedWhereOfLinksFor(id, ids, keep);
    assert [] + Keep(ids, keep) == Keep(ids, keep);
  }

  lemma CreateRowsThenGet(t: Tables, d: Draft)
    requires Consistent(t)
    requires CreateMealRows(t, d).reply.Success?
    ensures GetMeal(CreateMealRows(t, d).after, t.nextMealId)
         == Success(MealView(t.nextMealId, d.meal, Keep(d.ingredients, Known(t.ingredients))))
  {
    CreateMealRowsFresh(t, d);
    GetAfterInsert(t, d.meal, d.ingredients);
  }

  /** Meal creation, read back by id: the validated row under the returned id,
      with the normalised title, and those listed ingredients that are stored. */
  lemma CreateThenGetMeal(lib: Libs, t: Tables, f: MealForm)
    requires Consistent(t)
    requires CreateMeal(lib, t, f).reply.Success?
    ensures ValidateMeal(lib, f).Success?
    ensures var d := ValidateMeal(lib, f).value;
            var id := CreateMeal(lib, t, f).reply.value;
      && id == t.nextMealId
      && GetMeal(CreateMeal(lib, t, f).after, id) == Success(MealView(id, d.meal, Keep(d.ingredients, Known(t.ingredients))))
      && d.meal.title == Normalize(lib, f.title.value)
  {
    var d := ValidateMeal(lib, f).value;
    CreateMealRowsFresh(t, d);
    CreateRowsThenGet(t, d);
  }

  /** A second create with a title that normalises to the same text answers 2
      and changes nothing. */
  lemma SecondCreateSameTitleRejected(lib: Libs, t: Tables, f: MealForm, g: MealForm)
    requires CreateMeal(lib, t, f).reply.Success?
    requires ValidateMeal(lib, g).Success?
    requires Normalize(lib, g.title.value) == Normalize(lib, f.title.value)
    ensures CreateMeal(lib, CreateMeal(lib, t, f).after, g) == Outcome(Failure(2), CreateMeal(lib, t, f).after)
  {
    var d := ValidateMeal(lib, f).value;
    CreateMealCases(lib, t, f);
    var u := CreateMeal(lib, t, f).after;
    assert u.meals[t.nextMealId] == d.meal;
    assert Titled(u, d.meal.title)(t.nextMealId);
    assert t.nextMealId in MealIdsTitled(u, d.meal.title);
    CreateMealCases(lib, u, g);
  }

  /** Validation errors come before the duplicate-title check: a failing form
      answers its own code and changes nothing, whatever the tables hold. */
  lemma ValidationBeforeDuplicateCheck(lib: Libs, t: Tables, f: MealForm)
    requires ValidateMeal(lib, f).Failure?
    ensures CreateMeal(lib, t, f) == Outcome(Failure(ValidateMeal(lib, f).error), t)
    ensures FirstFailure(CreateChecks(lib, f)) == Some(ValidateMeal(lib, f).error)
  {
    ValidateMealFirstFailure(lib, f);
  }

  /** Deleting a meal twice is deleting it once. */
  lemma DeleteMealIdempotent(t: Tables, id: nat)
    ensures DeleteMeal(DeleteMeal(t, id).after, id) == DeleteMeal(t, id)
  {
    DropLinksTwice(t.links, OfMeal(id));
    assert t.meals - {id} - {id} == t.meals - {id};
  }

  /** Deleting a meal that does not exist changes nothing: no join row can
      belong to it. */
  lemma DeleteMissingMeal(t: Tables, id: nat)
    requires Consistent(t) && id !in t.meals
    ensures DeleteMeal(t, id) == Outcome(Success(()), t)
  {
    forall k | 0 <= k < |t.links| ensures !OfMeal(id)(t.links[k]) {
    }
    DropNothing(t.links, OfMeal(id));
    assert t.meals - {id} == t.meals;
  }

  /** After a delete the meal is gone: reading it answers 1. */
  lemma DeleteThenGetMeal(t: Tables, id: nat)
    ensures GetMeal(DeleteMeal(t, id).after, id) == Failure(1)
  {
  }

  lemma DeleteMealKeepsConsistent(t: Tables, id: nat)
    requires Consistent(t)
    ensures Consistent(DeleteMeal(t, id).after)
  {
    var u := DeleteMeal(t, id).after;
    forall k | 0 <= k < |u.links| ensures u.links[k].mealId in u.meals {
      assert u.links[k] in u.links;
      var j :| 0 <= j < |t.links| && t.links[j] == u.links[k];
    }
  }

  // ---------------------------------------------------------------------------
  // GET /api/meals (search mode)
  // ---------------------------------------------------------------------------

  /** `value <= max` in SQL: a NULL value satisfies no maximum. An absent
      maximum is no condition at all. */
  predicate AtMost(value: Option<int>, max: Option<int>) {
    max.None? || (value.Some? && value.value <= max.value)
  }

  /** `a + b` in SQL: NULL when either side is NULL. */
  function SqlAdd(a: Option<int>, b: Option<int>): (r: Option<int>)
    ensures r.Some? <==> a.Some? && b.Some?
  {
    if a.Some? && b.Some? then Some(a.value + b.value) else None
  }

  /** The `WHERE` clause of the search for one stored meal: every condition the
      filter holds, conjoined. */
  predicate Matches(f: Filter, t: Tables, id: nat)
    requires id in t.meals
    ensures Matches(f, t, id) ==> forall k :: 0 <= k < |f.ingredients| ==> Link(id, f.ingredients[k]) in t.links
    ensures Matches(f, t, id) && f.preparationTimeMax.Some? ==>
      t.meals[id].preparationTime.Some? && t.meals[id].preparationTime.value <= f.preparationTimeMax.value
    ensures Matches(f, t, id) && f.cookTimeMax.Some? ==>
      t.meals[id].cookTime.Some? && t.meals[id].cookTime.value <= f.cookTimeMax.value
    ensures Matches(f, t, id) && f.totalTimeMax.Some? ==>
      && t.meals[id].preparationTime.Some? && t.meals[id].cookTime.Some?
      && t.meals[id].cookTime.value + t.meals[id].preparationTime.value <= f.totalTimeMax.value
  {
    var m := t.meals[id];
    && (f.titlePattern.Some? ==> Like(f.titlePattern.value, m.title))
    && (f.mealEntry.Some? ==> m.mealEntry == f.mealEntry.value)
    && (f.mealTime.Some? ==> m.mealTime == f.mealTime.value)
    && (f.season.Some? ==> m.season == f.season.value)
    && AtMost(m.preparationTime, f.preparationTimeMax)
    && AtMost(m.cookTime, f.cookTimeMax)
    && AtMost(SqlAdd(m.cookTime, m.preparationTime), f.totalTimeMax)
    && (forall k :: 0 <= k < |f.ingredients| ==> f.ingredients[k] in LinkedIds(t.links, id))
  }

  function Selected(f: Filter, t: Tables): nat -> bool {
    id => id in t.meals && Matches(f, t, id)
  }

  /** A meal object of the search response: the ingredient ids come straight
      from the join table, whether or not the ingredient is stored. */
  function SearchView(t: Tables, id: nat): MealView
    requires id in t.meals
  {
    MealView(id, t.meals[id], LinkedIds(t.links, id))
  }

  /** The rows of the search query, in storage order, each with its join rows. */
  function SearchMeals(t: Tables, f: Filter): (r: seq<MealView>)
    ensures forall k :: 0 <= k < |r| ==> r[k].id in t.meals && Matches(f, t, r[k].id) && r[k] == SearchView(t, r[k].id)
    ensures forall i, j :: 0 <= i < j < |r| ==> r[i].id < r[j].id
  {
    var ids := IdsBelow(Selected(f, t), t.nextMealId);
    seq(|ids|, k requires 0 <= k < |ids| => SearchView(t, ids[k]))
  }

  /** `GET /api/meals`: the filter from the arguments, then the query. */
  function Search(lib: Libs, t: Tables, a: SearchArgs): (r: Result<seq<MealView>, int>)
    ensures r.Failure? <==> ParseSearch(lib, a).Failure?
    ensures r.Failure? ==> r.error == ParseSearch(lib, a).error && 3 <= r.error <= 10
    ensures r.Success? ==> forall k :: 0 <= k < |r.value| ==>
      r.value[k].id in t.meals && Matches(ParseSearch(lib, a).value, t, r.value[k].id)
  {
    var f :- ParseSearch(lib, a);
    Success(SearchMeals(t, f))
  }

  /** Every stored meal that meets the filter is in the response. */
  lemma SearchFindsMatches(t: Tables, f: Filter, id: nat)
    requires Consistent(t) && id in t.meals && Matches(f, t, id)
    ensures SearchView(t, id) in SearchMeals(t, f)
  {
    var ids := IdsBelow(Selected(f, t), t.nextMealId);
    assert Selected(f, t)(id);
    var k :| 0 <= k < |ids| && ids[k] == id;
    assert SearchMeals(t, f)[k] == SearchView(t, id);
  }

  /** A stored meal is in the response exactly when it meets the filter. */
  lemma SearchIff(t: Tables, f: Filter, id: nat)
    requires Consistent(t) && id in t.meals
    ensures SearchView(t, id) in SearchMeals(t, f) <==> Matches(f, t, id)
  {
    if Matches(f, t, id) {
      SearchFindsMatches(t, f, id);
    }
  }

  /** The filter of a search by meal entry alone. */
  function EntryFilter(e: int): Filter {
    Filter(None, Some(e), None, None, None, None, None, [])
  }

  /** The three searches by meal entry split the stored meals: each meal is found
      by the search for its own entry and by no other. */
  lemma EntrySearchesPartition(t: Tables, id: nat)
    requires Consistent(t) && id in t.meals
    ensures t.meals[id].mealEntry in MealEntries
    ensures forall e :: e in MealEntries ==>
      (SearchView(t, id) in SearchMeals(t, EntryFilter(e)) <==> e == t.meals[id].mealEntry)
  {
    forall e | e in MealEntries
      ensures SearchView(t, id) in SearchMeals(t, EntryFilter(e)) <==> e == t.meals[id].mealEntry
    {
      SearchIff(t, EntryFilter(e), id);
    }
  }

  /** The arguments of a search by meal entry alone, sent as the decimal text. */
  function EntryArgs(e: int): SearchArgs {
    SearchArgs(None, Some(Show(e)), None, None, None, None, None, None)
  }

  lemma EntryArgsParse(lib: Libs, e: int)
    requires e in MealEntries
    ensures ParseSearch(lib, EntryArgs(e)) == Success(EntryFilter(e))
  {
    ShownField(e, OneOf(MealEntries), 3);
  }

  /** The three requests `GET /api/meals?meal_entry=<e>` split the stored meals:
      each request succeeds, and each meal is in the response for its own entry
      and in no other. */
  lemma EntryRequestsPartition(lib: Libs, t: Tables, id: nat)
    requires Consistent(t) && id in t.meals
    ensures t.meals[id].mealEntry in MealEntries
    ensures forall e :: e in MealEntries ==> Search(lib, t, EntryArgs(e)).Success?
    ensures forall e :: e in MealEntries ==>
      (SearchView(t, id) in Search(lib, t, EntryArgs(e)).value <==> e == t.meals[id].mealEntry)
  {
    forall e | e in MealEntries
      ensures Search(lib, t, EntryArgs(e)).Success?
      ensures SearchView(t, id) in Search(lib, t, EntryArgs(e)).value <==> e == t.meals[id].mealEntry
    {
      EntryArgsParse(lib, e);
      SearchIff(t, EntryFilter(e), id);
    }
  }

  /** A NULL time fails every maximum on it: a meal without a cook time is never
      found by a search with a maximum cook time or a maximum total time, and one
      without a preparation time never by a maximum preparation or total time. */
  lemma NullTimeNeverMatches(t: Tables, f: Filter, id: nat)
    requires id in t.meals
    ensures t.meals[id].cookTime.None? && (f.cookTimeMax.Some? || f.totalTimeMax.Some?) ==> !Matches(f, t, id)
    ensures t.meals[id].preparationTime.None? && (f.preparationTimeMax.Some? || f.totalTimeMax.Some?) ==> !Matches(f, t, id)
  {
  }

  /** A maximum preparation time of "0" finds exactly the meals whose preparation
      time is 0: it is not read as "no maximum". */
  lemma ZeroPreparationMax(lib: Libs, t: Tables, id: nat)
    requires Consistent(t) && id in t.meals
    ensures var r := Search(lib, t, SearchArgs(None, None, None, None, Some("0"), None, None, None));
      r.Success? && (SearchView(t, id) in r.value <==> t.meals[id].preparationTime == Some(0))
  {
    var none := SearchArgs(None, None, None, None, None, None, None, None);
    var zero := none.(preparationTimeMax := Some("0"));
    var f := Filter(None, None, None, None, Some(0), None, None, []);
    ZeroField(NonNegative, 6);
    ParseSearchNoArgs(lib);
    ParseSearchMaxima(lib, none, zero);
    assert ParseSearch(lib, zero) == Success(f);
    assert Search(lib, t, zero) == Success(SearchMeals(t, f));
    SearchIff(t, f, id);
    PrepZeroMatches(t, f, id);
  }

  /** The only condition of a filter with a maximum preparation time of 0. */
  lemma PrepZeroMatches(t: Tables, f: Filter, id: nat)
    requires Consistent(t) && id in t.meals
    requires f == Filter(None, None, None, None, Some(0), None, None, [])
    ensures Matches(f, t, id) <==> t.meals[id].preparationTime == Some(0)
  {
    assert WellFormedMeal(t.meals[id]);
  }

  /** A maximum as the search's own documentation describes it: 0 stands for
      "any", like an absent maximum. */
  function ZeroAsAny(max: Option<int>): (r: Option<int>)
    ensures r != Some(0)
    ensures max != Some(0) ==> r == max
  {
    if max == Some(0) then None else max
  }

  /** The filter with its maxima read as documented. */
  function DocumentedMaxima(f: Filter): (g: Filter)
    ensures g.preparationTimeMax != Some(0) && g.cookTimeMax != Some(0) && g.totalTimeMax != Some(0)
    ensures g.titlePattern == f.titlePattern && g.mealEntry == f.mealEntry && g.mealTime == f.mealTime
    ensures g.season == f.season && g.ingredients == f.ingredients
  {
    f.(preparationTimeMax := ZeroAsAny(f.preparationTimeMax),
       cookTimeMax := ZeroAsAny(f.cookTimeMax),
       totalTimeMax := ZeroAsAny(f.totalTimeMax))
  }

  /** `GET /api/meals` with the maxima read as documented. */
  function SearchAsDocumented(lib: Libs, t: Tables, a: SearchArgs): (r: Result<seq<MealView>, int>)
    ensures r.Failure? <==> Search(lib, t, a).Failure?
    ensures r.Failure? ==> r == Search(lib, t, a)
    ensures r.Success? ==> forall k :: 0 <= k < |r.value| ==>
      r.value[k].id in t.meals && Matches(DocumentedMaxima(ParseSearch(lib, a).value), t, r.value[k].id)
  {
    var f :- ParseSearch(lib, a);
    Success(SearchMeals(t, DocumentedMaxima(f)))
  }

  /** Maxima of "0" are no condition once read as documented: the search
      answers exactly what it answers with those arguments left out. */
  lemma ZeroMaximaAsDocumented(lib: Libs, t: Tables, a: SearchArgs)
    ensures SearchAsDocumented(lib, t, a.(preparationTimeMax := Some("0"), cookTimeMax := Some("0"), totalTimeMax := Some("0")))
         == Search(lib, t, a.(preparationTimeMax := None, cookTimeMax := None, totalTimeMax := None))
  {
    var z := a.(preparationTimeMax := Some("0"), cookTimeMax := Some("0"), totalTimeMax := Some("0"));
    var n := a.(preparationTimeMax := None, cookTimeMax := None, totalTimeMax := None);
    ZeroField(NonNegative, 6);
    ZeroField(NonNegative, 7);
    ZeroField(NonNegative, 8);
    ParseSearchMaxima(lib, n, z);
    ParseSearchMaxima(lib, n, n);
    var pz, pn := ParseSearch(lib, z), ParseSearch(lib, n);
    if pz.Success? {
      assert DocumentedMaxima(pz.value) == pn.value;
    }
  }

  /** A maximum preparation time of "0", as written, drops every meal whose
      preparation time is unknown or positive: a single meal with none is found
      without the argument and not with it. */
  lemma ZeroMaxDropsMeals(lib: Libs)
    ensures var m := Meal("soup", "", 1, -1, -1, None, None);
            var t := Tables(map[1 := m], map[], [], 2, 1);
      && Search(lib, t, SearchArgs(None, None, None, None, Some("0"), None, None, None)) == Success([])
      && Search(lib, t, SearchArgs(None, None, None, None, None, None, None, None)) == Success([MealView(1, m, [])])
  {
    var m := Meal("soup", "", 1, -1, -1, None, None);
    var t := Tables(map[1 := m], map[], [], 2, 1);
    var args := SearchArgs(None, None, None, None, None, None, None, None);
    var none := Filter(None, None, None, None, None, None, None, []);
    var zero := none.(preparationTimeMax := Some(0));
    ZeroField(NonNegative, 6);
    ParseSearchNoArgs(lib);
    ParseSearchMaxima(lib, args, args.(preparationTimeMax := Some("0")));
    assert ParseSearch(lib, SearchArgs(None, None, None, None, Some("0"), None, None, None)) == Success(zero);
    IdsBelowOnly(Selected(none, t), 2, 1);
    IdsBelowOnly(Selected(zero, t), 2, 2);
    assert LinkedIds(t.links, 1) == [];
    assert SearchMeals(t, zero) == [];
    assert SearchMeals(t, none) == [MealView(1, m, [])];
  }

  /** A meal is found by a title search for any part of its title, whatever its
      spacing and whatever `%` or `_` it holds: each word of the query must
      appear, in order, and here the query is itself a piece of the title. */
  lemma TitleSearchFinds(lib: Libs, t: Tables, id: nat, q: string, before: string, after: string)
    requires Consistent(t) && id in t.meals
    requires t.meals[id].title == before + Normalize(lib, q) + after
    requires q != ""
    ensures var r := Search(lib, t, SearchArgs(Some(q), None, None, None, None, None, None, None));
      r.Success? && SearchView(t, id) in r.value
  {
    var f := Filter(Some(TitlePattern(lib, q)), None, None, None, None, None, None, []);
    assert ParseSearch(lib, SearchArgs(Some(q), None, None, None, None, None, None, None)) == Success(f);
    WordsPatternFindsQuery(Normalize(lib, q), before, after);
    SearchFindsMatches(t, f, id);
  }

  /** A meal just created is found by a search for its own title, with the
      ingredients as listed. */
  lemma CreateThenSearchByTitle(lib: Libs, t: Tables, f: MealForm)
    requires Consistent(t)
    requires CreateMeal(lib, t, f).reply.Success?
    ensures var d := ValidateMeal(lib, f).value;
            var r := Search(lib, CreateMeal(lib, t, f).after, SearchArgs(f.title, None, None, None, None, None, None, None));
      r.Success? && MealView(t.nextMealId, d.meal, d.ingredients) in r.value
  {
    var d := ValidateMeal(lib, f).value;
    assert f.title == Some(f.title.value) && f.title.value != "";
    CreateRowsThenSearchByTitle(lib, t, d, f.title.value);
  }

  lemma CreateRowsThenSearchByTitle(lib: Libs, t: Tables, d: Draft, q: string)
    requires Consistent(t) && WellFormedMeal(d.meal)
    requires CreateMealRows(t, d).reply.Success?
    requires q != "" && d.meal.title == Normalize(lib, q)
    ensures var r := Search(lib, CreateMealRows(t, d).after, SearchArgs(Some(q), None, None, None, None, None, None, None));
      r.Success? && MealView(t.nextMealId, d.meal, d.ingredients) in r.value
  {
    CreateMealRowsFresh(t, d);
    TitleTakenIff(t, d.meal.title);
    InsertMealKeepsConsistent(t, d.meal, d.ingredients);
    var u := CreateMealRows(t, d).after;
    SearchViewAfterInsert(t, d.meal, d.ingredients);
    assert d.meal.title == "" + Normalize(lib, q) + "";
    TitleSearchFinds(lib, u, t.nextMealId, q, "", "");
  }

  /** The search view of a meal just inserted lists its ingredients as given. */
  lemma SearchViewAfterInsert(t: Tables, m: Meal, ids: seq<int>)
    requires Consistent(t)
    ensures var id := t.nextMealId;
      SearchView(t.(meals := t.meals[id := m], links := t.links + LinksFor(id, ids), nextMealId := id + 1), id)
        == MealView(id, m, ids)
  {
    var id := t.nextMealId;
    LinkedWhereAppend(t.links, LinksFor(id, ids), id, AnyId);
    NoLinksOfNextMeal(t, AnyId);
    LinkedWhereOfLinksFor(id, ids, AnyId);
    KeepAll(ids, AnyId);
    assert [] + ids == ids;
  }

  /** The search lists join rows whose ingredient is gone; reading the meal by id
      does not: meal 1 linked to a missing ingredient 7. */
  lemma SearchAndGetDisagree()
    ensures var m := Meal("soup", "", 1, -1, -1, None, None);
            var t := Tables(map[1 := m], map[], [Link(1, 7)], 2, 1);
      && SearchMeals(t, EntryFilter(1)) == [MealView(1, m, [7])]
      && GetMeal(t, 1) == Success(MealView(1, m, []))
  {
    var m := Meal("soup", "", 1, -1, -1, None, None);
    var t := Tables(map[1 := m], map[], [Link(1, 7)], 2, 1);
    var keep := Selected(EntryFilter(1), t);
    IdsBelowOnly(keep, 2, 1);
    assert t.links[..0] == [];
    assert LinkedIds(t.links, 1) == [7];
    assert KnownLinkedIds(t, 1) == [];
  }

  // ---------------------------------------------------------------------------
  // POST /api/ingredients, GET and DELETE /api/ingredients/<id>
  // ---------------------------------------------------------------------------

  /** The stored form of an ingredient name: transliterated, then lower-cased. */
  function IngredientName(lib: Libs, name: string): (n: string)
    ensures |n| == |Normalize(lib, name)|
    ensures forall i :: 0 <= i < |n| ==> !('A' <= n[i] <= 'Z')
    ensures (forall c :: IsAscii(lib.transliterate(c))) ==> IsAscii(n)
  {
    Lower(Normalize(lib, name))
  }

  /** The store part of ingredient creation: the duplicate-name check, the
      insert, and the id read back by name. */
  function CreateIngredientRow(t: Tables, n: string): (o: Outcome<nat>)
    ensures o.reply.Failure? <==> IngredientIdsNamed(t, n) != []
    ensures o.reply.Failure? ==> o.reply.error == 2 && o.after == t
    ensures o.after.meals == t.meals && o.after.links == t.links
  {
    if IngredientIdsNamed(t, n) != [] then Outcome(Failure(2), t)
    else
      var inserted := t.(ingredients := t.ingredients[t.nextIngredientId := n],
                         nextIngredientId := t.nextIngredientId + 1);
      assert Named(inserted, n)(t.nextIngredientId);
      Outcome(Success(IngredientIdsNamed(inserted, n)[0]), inserted)
  }

  /** `POST /api/ingredients`: code 1 without a name, 2 when the stored form of
      the name exists, otherwise one new row and its id. */
  function CreateIngredient(lib: Libs, t: Tables, name: Option<string>): (o: Outcome<nat>)
    ensures !Given(name) ==> o == Outcome(Failure(1), t)
    ensures o.reply.Failure? ==> o.after == t
    ensures o.after.meals == t.meals && o.after.links == t.links
  {
    if !Given(name) then Outcome(Failure(1), t)
    else CreateIngredientRow(t, IngredientName(lib, name.value))
  }

  /** The name query after the insert finds the inserted row alone, when it
      found none before. */
  lemma InsertedNameFound(t: Tables, n: string)
    requires IngredientIdsNamed(t, n) == []
    ensures IngredientIdsNamed(t.(ingredients := t.ingredients[t.nextIngredientId := n],
                                  nextIngredientId := t.nextIngredientId + 1), n) == [t.nextIngredientId]
  {
    var inserted := t.(ingredients := t.ingredients[t.nextIngredientId := n], nextIngredientId := t.nextIngredientId + 1);
    forall x: nat | x < inserted.nextIngredientId ensures Named(inserted, n)(x) <==> x == t.nextIngredientId {
      if x < t.nextIngredientId {
        assert !Named(t, n)(x);
        assert x in inserted.ingredients <==> x in t.ingredients;
        assert x in t.ingredients ==> inserted.ingredients[x] == t.ingredients[x];
      }
    }
    IdsBelowOnly(Named(inserted, n), inserted.nextIngredientId, t.nextIngredientId);
  }

  /** The id read back after the insert is the id the insert used. */
  lemma CreateIngredientRowFresh(t: Tables, n: string)
    requires CreateIngredientRow(t, n).reply.Success?
    ensures CreateIngredientRow(t, n).reply.value == t.nextIngredientId
    ensures CreateIngredientRow(t, n).after
         == t.(ingredients := t.ingredients[t.nextIngredientId := n], nextIngredientId := t.nextIngredientId + 1)
  {
    assert IngredientIdsNamed(t, n) == [];
    InsertedNameFound(t, n);
    var inserted := t.(ingredients := t.ingredients[t.nextIngredientId := n], nextIngredientId := t.nextIngredientId + 1);
    assert IngredientIdsNamed(inserted, n)[0] == t.nextIngredientId;
  }

  /** A successful create stores the lower-cased, transliterated name under the
      next id and returns that id; the meals and the join table do not change. */
  lemma CreateIngredientFresh(lib: Libs, t: Tables, name: Option<string>)
    requires CreateIngredient(lib, t, name).reply.Success?
    ensures CreateIngredient(lib, t, name).reply.value == t.nextIngredientId
    ensures CreateIngredient(lib, t, name).after
         == t.(ingredients := t.ingredients[t.nextIngredientId := IngredientName(lib, name.value)],
               nextIngredientId := t.nextIngredientId + 1)
  {
    CreateIngredientRowFresh(t, IngredientName(lib, name.value));
  }

  /** Ingredient creation, case by case, for any consistent tables: a stored
      ingredient with the same stored name makes the answer 2 with nothing
      changed; otherwise the name is inserted under the next id. */
  lemma CreateIngredientCases(lib: Libs, t: Tables, name: Option<string>)
    requires Consistent(t) && Given(name)
    ensures var n := IngredientName(lib, name.value);
      (exists id :: id in t.ingredients && t.ingredients[id] == n) ==>
        CreateIngredient(lib, t, name) == Outcome(Failure(2), t)
    ensures var n := IngredientName(lib, name.value);
      (forall id :: id in t.ingredients ==> t.ingredients[id] != n) ==>
        CreateIngredient(lib, t, name)
        == Outcome(Success(t.nextIngredientId),
                   t.(ingredients := t.ingredients[t.nextIngredientId := n], nextIngredientId := t.nextIngredientId + 1))
  {
    var n := IngredientName(lib, name.value);
    NameTakenIff(t, n);
    if IngredientIdsNamed(t, n) == [] {
      CreateIngredientRowFresh(t, n);
    }
  }

  /** The tables after a successful ingredient insert, for a name no stored
      ingredient has, are consistent and are the outcome of the request. */
  lemma InsertIngredientOutcome(t: Tables, n: string, u: Tables)
    requires Consistent(t) && IngredientIdsNamed(t, n) == []
    requires u == t.(ingredients := t.ingredients[t.nextIngredientId := n], nextIngredientId := t.nextIngredientId + 1)
    ensures Consistent(u)
    ensures CreateIngredientRow(t, n) == Outcome(Success(t.nextIngredientId), u)
  {
    InsertIngredientKeepsConsistent(t, n);
    CreateIngredientRowFresh(t, n);
  }

  /** Inserting a name no ingredient has under the next id keeps the database
      consistent. */
  lemma InsertIngredientKeepsConsistent(t: Tables, n: string)
    requires Consistent(t) && IngredientIdsNamed(t, n) == []
    ensures Consistent(t.(ingredients := t.ingredients[t.nextIngredientId := n],
                          nextIngredientId := t.nextIngredientId + 1))
  {
    NameTakenIff(t, n);
    var u := t.(ingredients := t.ingredients[t.nextIngredientId := n], nextIngredientId := t.nextIngredientId + 1);
    forall a, b | a in u.ingredients && b in u.ingredients && u.ingredients[a] == u.ingredients[b] ensures a == b {
      if a != t.nextIngredientId && b != t.nextIngredientId {
        assert t.ingredients[a] == t.ingredients[b];
      }
    }
  }

  /** Ingredient creation keeps the database consistent. */
  lemma CreateIngredientKeepsConsistent(lib: Libs, t: Tables, name: Option<string>)
    requires Consistent(t)
    ensures Consistent(CreateIngredient(lib, t, name).after)
  {
    if CreateIngredient(lib, t, name).reply.Success? {
      var n := IngredientName(lib, name.value);
      CreateIngredientRowFresh(t, n);
      InsertIngredientKeepsConsistent(t, n);
    }
  }

  /** Two names with the same stored form are one ingredient: after the first
      create, the second answers 2 and changes nothing. Names that differ only in
      the case of ASCII letters are such a pair. */
  lemma SecondCreateSameNameRejected(lib: Libs, t: Tables, a: string, b: string)
    requires CreateIngredient(lib, t, Some(a)).reply.Success?
    requires b != "" && IngredientName(lib, b) == IngredientName(lib, a)
    ensures var u := CreateIngredient(lib, t, Some(a)).after;
      CreateIngredient(lib, u, Some(b)) == Outcome(Failure(2), u)
  {
    CreateIngredientFresh(lib, t, Some(a));
    var u := CreateIngredient(lib, t, Some(a)).after;
    var n := IngredientName(lib, a);
    assert u.ingredients[t.nextIngredientId] == n;
    assert Named(u, n)(t.nextIngredientId);
    assert t.nextIngredientId in IngredientIdsNamed(u, n);
    assert CreateIngredient(lib, u, Some(b)) == CreateIngredientRow(u, n);
  }

  /** `GET /api/ingredients/<id>`: the row, or code 1. */
  function GetIngredient(t: Tables, id: nat): (r: Result<IngredientView, int>)
    ensures r.Failure? <==> id !in t.ingredients
    ensures r.Failure? ==> r.error == 1
    ensures r.Success? ==> r.value == IngredientView(id, t.ingredients[id])
  {
    if id in t.ingredients then Success(IngredientView(id, t.ingredients[id])) else Failure(1)
  }

  /** Ingredient creation, read back by id. */
  lemma CreateThenGetIngredient(lib: Libs, t: Tables, name: Option<string>)
    requires CreateIngredient(lib, t, name).reply.Success?
    ensures var o := CreateIngredient(lib, t, name);
      GetIngredient(o.after, o.reply.value) == Success(IngredientView(o.reply.value, IngredientName(lib, name.value)))
  {
    CreateIngredientFresh(lib, t, name);
  }

  /** The join rows that name one ingredient. */
  function UsesIngredient(id: nat): Link -> bool {
    (l: Link) => l.ingredientId == id
  }

  /** `DELETE /api/ingredients/<id>` as the handler is written: the ingredient row
      goes, and so does every join row whose MEAL id is `id`. The reply is
      always success. */
  function DeleteIngredient(t: Tables, id: nat): (o: Outcome<()>)
    ensures o.reply.Success?
    ensures o.after.ingredients == t.ingredients - {id} && o.after.meals == t.meals
    ensures forall l :: multiset(o.after.links)[l] == if l.mealId == id then 0 else multiset(t.links)[l]
    ensures o.after.nextMealId == t.nextMealId && o.after.nextIngredientId == t.nextIngredientId
  {
    DropLinksCounts(t.links, OfMeal(id));
    Outcome(Success(()), t.(ingredients := t.ingredients - {id}, links := DropLinks(t.links, OfMeal(id))))
  }

  /** The delete as documented: the ingredient row and every join row that uses
      the ingredient. */
  function DeleteIngredientIntended(t: Tables, id: nat): (o: Outcome<()>)
    ensures o.reply.Success?
    ensures o.after.ingredients == t.ingredients - {id} && o.after.meals == t.meals
    ensures forall l :: multiset(o.after.links)[l] == if l.ingredientId == id then 0 else multiset(t.links)[l]
    ensures o.after.nextMealId == t.nextMealId && o.after.nextIngredientId == t.nextIngredientId
  {
    DropLinksCounts(t.links, UsesIngredient(id));
    Outcome(Success(()), t.(ingredients := t.ingredients - {id}, links := DropLinks(t.links, UsesIngredient(id))))
  }

  /** The documented delete removes the ingredient from every meal: afterwards no
      meal lists it, by id or in a search, and every other ingredient of each
      meal is still listed. */
  lemma DeleteIngredientIntendedUnlinks(t: Tables, id: nat, mealId: nat)
    ensures id as int !in LinkedIds(DeleteIngredientIntended(t, id).after.links, mealId)
    ensures forall x :: x != id as int && x in LinkedIds(t.links, mealId) ==>
                        x in LinkedIds(DeleteIngredientIntended(t, id).after.links, mealId)
  {
    var u := DeleteIngredientIntended(t, id).after.links;
    forall x | x != id as int && x in LinkedIds(t.links, mealId) ensures x in LinkedIds(u, mealId) {
      LinkedIdsMember(t.links, mealId, x);
      var k :| 0 <= k < |t.links| && t.links[k] == Link(mealId, x);
      assert t.links[k] in u;
      var j :| 0 <= j < |u| && u[j] == Link(mealId, x);
      LinkedIdsMember(u, mealId, x);
    }
    forall j | 0 <= j < |u| ensures u[j] != Link(mealId, id as int) {
      assert u[j] in u;
    }
    LinkedIdsMember(u, mealId, id as int);
  }

  /** An ingredient id is listed for a meal exactly when some join row pairs them. */
  lemma {:induction false} LinkedIdsMember(links: seq<Link>, mealId: nat, x: int)
    ensures x in LinkedIds(links, mealId) <==> exists k :: 0 <= k < |links| && links[k] == Link(mealId, x)
    decreases |links|
  {
    if links != [] {
      var init := links[..|links| - 1];
      LinkedIdsMember(init, mealId, x);
      if exists k :: 0 <= k < |init| && init[k] == Link(mealId, x) {
        var k :| 0 <= k < |init| && init[k] == Link(mealId, x);
        assert links[k] == Link(mealId, x);
      }
      if exists k :: 0 <= k < |links| && links[k] == Link(mealId, x) {
        var k :| 0 <= k < |links| && links[k] == Link(mealId, x);
        if k < |init| {
          assert init[k] == Link(mealId, x);
        }
      }
    }
  }


  /** The defect of the delete as written: with meal 1 linked to ingredients 1
      and 5, deleting ingredient 5 leaves the row (1, 5), so the search still
      lists 5 for meal 1; and deleting ingredient 1 drops both rows of the
      unrelated meal 1. */
  lemma DeleteIngredientAsWrittenKeepsRows()
    ensures var t := Tables(map[1 := Meal("soup", "", 1, -1, -1, None, None)],
                            map[1 := "salt", 5 := "egg"], [Link(1, 1), Link(1, 5)], 2, 6);
      && DeleteIngredient(t, 5).after.links == [Link(1, 1), Link(1, 5)]
      && LinkedIds(DeleteIngredient(t, 5).after.links, 1) == [1, 5]
      && DeleteIngredient(t, 1).after.links == []
      && DeleteIngredientIntended(t, 5).after.links == [Link(1, 1)]
  {
    ExampleRows();
  }

  /** The join-table computations of the example above. */
  lemma ExampleRows()
    ensures DropLinks([Link(1, 1), Link(1, 5)], OfMeal(5)) == [Link(1, 1), Link(1, 5)]
    ensures DropLinks([Link(1, 1), Link(1, 5)], OfMeal(1)) == []
    ensures DropLinks([Link(1, 1), Link(1, 5)], UsesIngredient(5)) == [Link(1, 1)]
    ensures LinkedIds([Link(1, 1), Link(1, 5)], 1) == [1, 5]
  {
    ExampleDrop(OfMeal(5));
    ExampleDrop(OfMeal(1));
    ExampleDrop(UsesIngredient(5));
    ExampleLinked();
  }

  /** A delete over the two example rows, row by row. */
  lemma ExampleDrop(drop: Link -> bool)
    ensures DropLinks([Link(1, 1), Link(1, 5)], drop)
         == (if drop(Link(1, 1)) then [] else [Link(1, 1)]) + (if drop(Link(1, 5)) then [] else [Link(1, 5)])
  {
    var a := [Link(1, 1)];
    assert [Link(1, 1), Link(1, 5)][..1] == a && a[..0] == [];
  }

  lemma ExampleLinked()
    ensures LinkedIds([Link(1, 1), Link(1, 5)], 1) == [1, 5]
  {
    var a := [Link(1, 1)];
    assert [Link(1, 1), Link(1, 5)][..1] == a && a[..0] == [];
    assert LinkedIds(a, 1) == [1];
  }

  /** Deleting an ingredient twice is deleting it once, as written and as
      intended. */
  lemma DeleteIngredientIdempotent(t: Tables, id: nat)
    ensures DeleteIngredient(DeleteIngredient(t, id).after, id) == DeleteIngredient(t, id)
    ensures DeleteIngredientIntended(DeleteIngredientIntended(t, id).after, id) == DeleteIngredientIntended(t, id)
  {
    DropLinksTwice(t.links, OfMeal(id));
    DropLinksTwice(t.links, UsesIngredient(id));
    assert t.ingredients - {id} - {id} == t.ingredients - {id};
  }

  /** After either delete the ingredient is gone: reading it answers 1. */
  lemma DeleteThenGetIngredient(t: Tables, id: nat)
    ensures GetIngredient(DeleteIngredient(t, id).after, id) == Failure(1)
    ensures GetIngredient(DeleteIngredientIntended(t, id).after, id) == Failure(1)
  {
  }

  /** Both deletes keep the database consistent. */
  lemma DeleteIngredientKeepsConsistent(t: Tables, id: nat)
    requires Consistent(t)
    ensures Consistent(DeleteIngredient(t, id).after)
  {
    var u := DeleteIngredient(t, id).after;
    forall k | 0 <= k < |u.links| ensures u.links[k].mealId in u.meals {
      assert u.links[k] in u.links;
    }
  }

  lemma DeleteIngredientIntendedKeepsConsistent(t: Tables, id: nat)
    requires Consistent(t)
    ensures Consistent(DeleteIngredientIntended(t, id).after)
  {
    var w := DeleteIngredientIntended(t, id).after;
    forall k | 0 <= k < |w.links| ensures w.links[k].mealId in w.meals {
      assert w.links[k] in w.links;
    }
  }

  // ---------------------------------------------------------------------------
  // GET /api/ingredients
  // ---------------------------------------------------------------------------

  /** The ingredient objects of a list of ids. */
  function IngredientViews(t: Tables, ids: seq<nat>): (r: seq<IngredientView>)
    requires forall k :: 0 <= k < |ids| ==> ids[k] in t.ingredients
    ensures |r| == |ids|
    ensures forall k :: 0 <= k < |ids| ==> r[k] == IngredientView(ids[k], t.ingredients[ids[k]])
  {
    seq(|ids|, k requires 0 <= k < |ids| => IngredientView(ids[k], t.ingredients[ids[k]]))
  }

  /** `WHERE name LIKE ?`. */
  function NameLike(t: Tables, pattern: string): nat -> bool {
    id => id in t.ingredients && Like(pattern, t.ingredients[id])
  }

  /** Whether a bound value of the `id IN (...)` list equals an id: a number, a
      boolean (bound as 0 or 1) or a string that spells the id in decimal. */
  predicate BindsTo(x: JsonItem, id: nat) {
    match x
    case JInt(n) => n == id
    case JBool(b) => (if b then 1 else 0) == id
    case JStr(s) => s == Show(id)
  }

  /** `WHERE id IN (?, ..., ?)`. */
  function AmongItems(t: Tables, items: seq<JsonItem>): nat -> bool {
    id => id in t.ingredients && exists k :: 0 <= k < |items| && BindsTo(items[k], id)
  }

  /** Read the ids of the selected rows, in storage order. */
  function SelectIngredients(t: Tables, keep: nat -> bool): (r: seq<IngredientView>)
    requires forall id: nat :: keep(id) ==> id in t.ingredients
    ensures forall k :: 0 <= k < |r| ==> keep(r[k].id) && r[k].id in t.ingredients && r[k].name == t.ingredients[r[k].id]
    ensures forall i, j :: 0 <= i < j < |r| ==> r[i].id < r[j].id
  {
    IngredientViews(t, IdsBelow(keep, t.nextIngredientId))
  }

  /** `GET /api/ingredients`: code 1 without a query; in search mode (the default)
      the ingredients whose name is LIKE `%` + the transliterated query + `%`;
      in many mode those whose id the JSON list names (code 3 when it does not
      decode); code 2 for any other mode. */
  function ListIngredients(lib: Libs, t: Tables, mode: Option<string>, q: Option<string>): (r: Result<seq<IngredientView>, int>)
    ensures !Given(q) ==> r == Failure(1)
    ensures var m := if Given(mode) then mode.value else "search";
      Given(q) && m != "search" && m != "many" ==> r == Failure(2)
    ensures var m := if Given(mode) then mode.value else "search";
      Given(q) && m == "many" && lib.jsonLoads(q.value).None? ==> r == Failure(3)
    ensures r.Failure? ==> r.error in {1, 2, 3}
    ensures r.Success? ==> forall k :: 0 <= k < |r.value| ==>
      r.value[k].id in t.ingredients && r.value[k].name == t.ingredients[r.value[k].id]
  {
    var m := if Given(mode) then mode.value else "search";
    if !Given(q) then Failure(1)
    else if m == "search" then
      Success(SelectIngredients(t, NameLike(t, "%" + Normalize(lib, q.value) + "%")))
    else if m == "many" then
      match lib.jsonLoads(q.value)
      case None => Failure(3)
      case Some(items) => Success(SelectIngredients(t, AmongItems(t, items)))
    else Failure(2)
  }

  /** An ingredient is listed by a selection exactly when it meets the condition. */
  lemma SelectIngredientsIff(t: Tables, keep: nat -> bool, id: nat)
    requires Consistent(t) && id in t.ingredients
    requires forall x: nat :: keep(x) ==> x in t.ingredients
    ensures IngredientView(id, t.ingredients[id]) in SelectIngredients(t, keep) <==> keep(id)
  {
    var ids := IdsBelow(keep, t.nextIngredientId);
    var r := SelectIngredients(t, keep);
    if keep(id) {
      var k :| 0 <= k < |ids| && ids[k] == id;
      assert r[k] == IngredientView(id, t.ingredients[id]);
    }
    if IngredientView(id, t.ingredients[id]) in r {
      var k :| 0 <= k < |r| && r[k] == IngredientView(id, t.ingredients[id]);
      assert ids[k] == id;
    }
  }

  /** A name is found, once it has been created, by a search for any query that
      is stored as the same name: the name as it was typed, or the name in
      another case or with other accents that transliterate alike. */
  lemma CreateThenListIngredient(lib: Libs, t: Tables, name: string, q: string)
    requires Consistent(t)
    requires CreateIngredient(lib, t, Some(name)).reply.Success?
    requires q != "" && IngredientName(lib, q) == IngredientName(lib, name)
    ensures var o := CreateIngredient(lib, t, Some(name));
      && ListIngredients(lib, o.after, None, Some(q)).Success?
      && IngredientView(o.reply.value, IngredientName(lib, name)) in ListIngredients(lib, o.after, None, Some(q)).value
  {
    var o := CreateIngredient(lib, t, Some(name));
    CreateIngredientFresh(lib, t, Some(name));
    CreateIngredientKeepsConsistent(lib, t, Some(name));
    ListedByOwnName(lib, o.after, t.nextIngredientId, q);
  }

  /** A search finds the ingredient stored under the query's own stored form. */
  lemma ListedByOwnName(lib: Libs, u: Tables, id: nat, q: string)
    requires Consistent(u) && id in u.ingredients && q != ""
    requires u.ingredients[id] == IngredientName(lib, q)
    ensures ListIngredients(lib, u, None, Some(q)).Success?
    ensures IngredientView(id, u.ingredients[id]) in ListIngredients(lib, u, None, Some(q)).value
  {
    var w := Normalize(lib, q);
    var stored := IngredientName(lib, q);
    LowerIgnoresCase(w);
    ContainsPatternFinds(w, "", stored, "");
    assert "" + stored + "" == stored;
    ListIngredientsSearchIff(lib, u, None, q, id);
  }

  /** `str.lower()` changes only the case of letters. */
  lemma LowerIgnoresCase(w: string)
    ensures SameIgnoringCase(w, Lower(w))
  {
  }

  /** Search mode, the default, lists a stored ingredient exactly when its name
      is LIKE `%` + the transliterated query + `%`. */
  lemma ListIngredientsSearchIff(lib: Libs, t: Tables, mode: Option<string>, q: string, id: nat)
    requires Consistent(t) && id in t.ingredients && q != ""
    requires mode == None || mode == Some("") || mode == Some("search")
    ensures ListIngredients(lib, t, mode, Some(q)).Success?
    ensures IngredientView(id, t.ingredients[id]) in ListIngredients(lib, t, mode, Some(q)).value
        <==> Like("%" + Normalize(lib, q) + "%", t.ingredients[id])
  {
    SelectIngredientsIff(t, NameLike(t, "%" + Normalize(lib, q) + "%"), id);
  }

  /** Many mode lists exactly the stored ingredients whose id is in the list. */
  lemma ManyListsRequested(lib: Libs, t: Tables, q: string, id: nat)
    requires Consistent(t) && id in t.ingredients
    requires q != "" && lib.jsonLoads(q).Some?
    ensures ListIngredients(lib, t, Some("many"), Some(q)).Success?
    ensures IngredientView(id, t.ingredients[id]) in ListIngredients(lib, t, Some("many"), Some(q)).value
        <==> exists k :: 0 <= k < |lib.jsonLoads(q).value| && BindsTo(lib.jsonLoads(q).value[k], id)
  {
    SelectIngredientsIff(t, AmongItems(t, lib.jsonLoads(q).value), id);
  }
}
