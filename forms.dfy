/**
 * The request parameters of the meal handlers: validation and defaulting of
 * the create form, and the filter the search builds from its query arguments.
 */
module Forms {
  import opened Wrappers
  import opened PyText
  import opened SqlLike
  import opened Json
  import opened Schema

  /** The foreign libraries the handlers call: `unidecode`'s table for the
      characters outside ASCII, and `json.loads` (None where it raises
      JSONDecodeError, otherwise the elements of the decoded array). */
  datatype Libs = Libs(transliterate: char -> string, jsonLoads: string -> Option<seq<JsonItem>>)

  /** `unidecode.unidecode(s)`. */
  function Normalize(lib: Libs, s: string): string {
    Unidecode(lib.transliterate, s)
  }

  /** The fields of the create form: each is absent or the string sent. */
  datatype MealForm = MealForm(
    title: Option<string>,
    description: Option<string>,
    mealEntry: Option<string>,
    mealTime: Option<string>,
    season: Option<string>,
    preparationTime: Option<string>,
    cookTime: Option<string>,
    ingredients: Option<string>)

  /** A validated form: the meal row to insert and the ingredient ids to link. */
  datatype Draft = Draft(meal: Meal, ingredients: seq<int>)

  /** What an integer field must satisfy once `int()` has read it. */
  datatype Rule = OneOf(allowed: set<int>) | NonNegative

  predicate Accepts(rule: Rule, v: int) {
    match rule
    case OneOf(allowed) => v in allowed
    case NonNegative => v >= 0
  }

  function GetOr(o: Option<int>, default: int): int {
    if o.Some? then o.value else default
  }

  /** An optional integer field: absent or empty gives None; a value that `int()`
      rejects or that breaks the rule answers `code`. */
  function Field(o: Option<string>, rule: Rule, code: int): (r: Result<Option<int>, int>)
    ensures r.Success? && r.value.Some? ==> Accepts(rule, r.value.value)
    ensures r.Failure? ==> r.error == code
  {
    if !Given(o) then Success(None)
    else
      match ParseInt(o.value)
      case None => Failure(code)
      case Some(v) => if Accepts(rule, v) then Success(Some(v)) else Failure(code)
  }

  /** An optional JSON list of ingredient ids: absent or empty gives `[]`; text
      `json.loads` rejects answers `badJson`; an element `int()` rejects answers
      `badItem`. */
  function IngredientIds(lib: Libs, o: Option<string>, badJson: int, badItem: int): (r: Result<seq<int>, int>)
    ensures r.Failure? ==> r.error == badJson || r.error == badItem
  {
    if !Given(o) then Success([])
    else
      match lib.jsonLoads(o.value)
      case None => Failure(badJson)
      case Some(items) =>
        match IntsOf(items)
        case None => Failure(badItem)
        case Some(ids) => Success(ids)
  }

  // ---------------------------------------------------------------------------
  // Meal creation
  // ---------------------------------------------------------------------------

  /** The validation of `POST /api/meals`: the meal to insert, or the code of
      the first check that fails. */
  function ValidateMeal(lib: Libs, f: MealForm): (r: Result<Draft, int>)
    ensures !Given(f.title) ==> r == Failure(1)
    ensures r.Success? ==> WellFormedMeal(r.value.meal)
    ensures r.Success? ==> r.value.meal.title == Normalize(lib, f.title.value)
  {
    if !Given(f.title) then Failure(1)
    else
      var entry :- Field(f.mealEntry, OneOf(MealEntries), 3);
      var time :- Field(f.mealTime, OneOf(MealTimes), 4);
      var season :- Field(f.season, OneOf(Seasons), 5);
      var prep :- Field(f.preparationTime, NonNegative, 6);
      var cook :- Field(f.cookTime, NonNegative, 7);
      var ids :- IngredientIds(lib, f.ingredients, 8, 9);
      var description := if Given(f.description) then f.description.value else "";
      Success(Draft(
        Meal(Normalize(lib, f.title.value), Normalize(lib, description),
             GetOr(entry, 1), GetOr(time, -1), GetOr(season, -1), prep, cook),
        ids))
  }

  /** Whether an optional integer field passes its check. */
  predicate FieldOk(o: Option<string>, rule: Rule) {
    !Given(o) || (ParseInt(o.value).Some? && Accepts(rule, ParseInt(o.value).value))
  }

  /** Whether an optional ingredient list decodes as JSON. */
  predicate JsonOk(lib: Libs, o: Option<string>) {
    !Given(o) || lib.jsonLoads(o.value).Some?
  }

  /** Whether every element of a decodable ingredient list is an integer. */
  predicate ItemsOk(lib: Libs, o: Option<string>) {
    !Given(o) || lib.jsonLoads(o.value).None? || IntsOf(lib.jsonLoads(o.value).value).Some?
  }

  /** The code of the first check, in order, that fails. */
  function FirstFailure(checks: seq<(bool, int)>): (r: Option<int>)
    ensures r.None? <==> forall k :: 0 <= k < |checks| ==> checks[k].0
  {
    if checks == [] then None
    else if !checks[0].0 then Some(checks[0].1)
    else FirstFailure(checks[1..])
  }

  /** The checks of the create handler in the order it makes them, each with the
      code it answers. */
  function CreateChecks(lib: Libs, f: MealForm): seq<(bool, int)> {
    [ (Given(f.title), 1),
      (FieldOk(f.mealEntry, OneOf(MealEntries)), 3),
      (FieldOk(f.mealTime, OneOf(MealTimes)), 4),
      (FieldOk(f.season, OneOf(Seasons)), 5),
      (FieldOk(f.preparationTime, NonNegative), 6),
      (FieldOk(f.cookTime, NonNegative), 7),
      (JsonOk(lib, f.ingredients), 8),
      (ItemsOk(lib, f.ingredients), 9) ]
  }

  lemma FieldIff(o: Option<string>, rule: Rule, code: int)
    ensures Field(o, rule, code).Success? <==> FieldOk(o, rule)
    ensures Field(o, rule, code).Success? ==> Field(o, rule, code).value == if Given(o) then ParseInt(o.value) else None
  {
  }

  /** The first failing check of a list that starts with a passing one is the
      first failing check of the rest. */
  lemma FirstFailureCons(checks: seq<(bool, int)>)
    requires checks != []
    ensures FirstFailure(checks) == if !checks[0].0 then Some(checks[0].1) else FirstFailure(checks[1..])
  {
  }

  lemma IngredientIdsIff(lib: Libs, o: Option<string>, badJson: int, badItem: int)
    ensures IngredientIds(lib, o, badJson, badItem).Success? <==> JsonOk(lib, o) && ItemsOk(lib, o)
    ensures IngredientIds(lib, o, badJson, badItem).Failure? ==>
              IngredientIds(lib, o, badJson, badItem).error == if JsonOk(lib, o) then badItem else badJson
  {
  }

  /** Validation fails exactly when one of the checks fails, and it answers the
      code of the first one in field order. */
  lemma ValidateMealFirstFailure(lib: Libs, f: MealForm)
    ensures ValidateMeal(lib, f).Failure? <==> FirstFailure(CreateChecks(lib, f)).Some?
    ensures ValidateMeal(lib, f).Failure? ==> FirstFailure(CreateChecks(lib, f)) == Some(ValidateMeal(lib, f).error)
  {
    FieldIff(f.mealEntry, OneOf(MealEntries), 3);
    FieldIff(f.mealTime, OneOf(MealTimes), 4);
    FieldIff(f.season, OneOf(Seasons), 5);
    FieldIff(f.preparationTime, NonNegative, 6);
    FieldIff(f.cookTime, NonNegative, 7);
    IngredientIdsIff(lib, f.ingredients, 8, 9);
    FirstFailureChain(CreateChecks(lib, f));
  }

  /** A list of eight checks, unfolded. */
  lemma FirstFailureChain(cs: seq<(bool, int)>)
    requires |cs| == 8
    ensures FirstFailure(cs) ==
      if !cs[0].0 then Some(cs[0].1) else if !cs[1].0 then Some(cs[1].1)
      else if !cs[2].0 then Some(cs[2].1) else if !cs[3].0 then Some(cs[3].1)
      else if !cs[4].0 then Some(cs[4].1) else if !cs[5].0 then Some(cs[5].1)
      else if !cs[6].0 then Some(cs[6].1) else if !cs[7].0 then Some(cs[7].1)
      else None
  {
    var c := cs;
    FirstFailureCons(c); c := c[1..];
    FirstFailureCons(c); c := c[1..];
    FirstFailureCons(c); c := c[1..];
    FirstFailureCons(c); c := c[1..];
    FirstFailureCons(c); c := c[1..];
    FirstFailureCons(c); c := c[1..];
    FirstFailureCons(c); c := c[1..];
    FirstFailureCons(c); c := c[1..];
    assert c == [];
  }

  /** A form that sends only a title gets every default: an empty description,
      a main course, any meal time, any season, no times and no ingredients. */
  lemma DefaultsWhenOmitted(lib: Libs, title: string)
    requires title != ""
    ensures ValidateMeal(lib, MealForm(Some(title), None, None, None, None, None, None, None))
         == Success(Draft(Meal(Normalize(lib, title), "", 1, -1, -1, None, None), []))
  {
  }

  /** An empty string is treated as an omitted field, like a missing one. */
  lemma EmptyIsOmitted(lib: Libs, f: MealForm)
    ensures ValidateMeal(lib, f) == ValidateMeal(lib, f.(description := if Given(f.description) then f.description else None,
                                                          mealEntry := if Given(f.mealEntry) then f.mealEntry else None,
                                                          mealTime := if Given(f.mealTime) then f.mealTime else None,
                                                          season := if Given(f.season) then f.season else None,
                                                          preparationTime := if Given(f.preparationTime) then f.preparationTime else None,
                                                          cookTime := if Given(f.cookTime) then f.cookTime else None,
                                                          ingredients := if Given(f.ingredients) then f.ingredients else None))
  {
  }

  /** The unfolding step behind `ValidatedValues`: on success every check passed,
      and each stored value is the one its own check produced, or the default
      where the check produced none. */
  lemma ValidatedFields(lib: Libs, f: MealForm)
    requires ValidateMeal(lib, f).Success?
    ensures var m := ValidateMeal(lib, f).value.meal;
      && m.mealEntry == GetOr(Field(f.mealEntry, OneOf(MealEntries), 3).value, 1)
      && m.mealTime == GetOr(Field(f.mealTime, OneOf(MealTimes), 4).value, -1)
      && m.season == GetOr(Field(f.season, OneOf(Seasons), 5).value, -1)
      && m.preparationTime == Field(f.preparationTime, NonNegative, 6).value
      && m.cookTime == Field(f.cookTime, NonNegative, 7).value
    ensures ValidateMeal(lib, f).value.ingredients == IngredientIds(lib, f.ingredients, 8, 9).value
    ensures Field(f.mealEntry, OneOf(MealEntries), 3).Success? && Field(f.mealTime, OneOf(MealTimes), 4).Success?
    ensures Field(f.season, OneOf(Seasons), 5).Success? && Field(f.preparationTime, NonNegative, 6).Success?
    ensures Field(f.cookTime, NonNegative, 7).Success? && IngredientIds(lib, f.ingredients, 8, 9).Success?
  {
  }

  /** On success each field that was sent holds the value `int()` read from it,
      and each field that was not holds its default. */
  lemma ValidatedValues(lib: Libs, f: MealForm)
    requires ValidateMeal(lib, f).Success?
    ensures var m := ValidateMeal(lib, f).value.meal;
      && (Given(f.mealEntry) ==> Some(m.mealEntry) == ParseInt(f.mealEntry.value))
      && (!Given(f.mealEntry) ==> m.mealEntry == 1)
      && (Given(f.mealTime) ==> Some(m.mealTime) == ParseInt(f.mealTime.value))
      && (!Given(f.mealTime) ==> m.mealTime == -1)
      && (Given(f.season) ==> Some(m.season) == ParseInt(f.season.value))
      && (!Given(f.season) ==> m.season == -1)
      && (Given(f.preparationTime) ==> m.preparationTime == ParseInt(f.preparationTime.value))
      && (!Given(f.preparationTime) ==> m.preparationTime == None)
      && (Given(f.cookTime) ==> m.cookTime == ParseInt(f.cookTime.value))
      && (!Given(f.cookTime) ==> m.cookTime == None)
    ensures var d := ValidateMeal(lib, f).value;
      && (Given(f.ingredients) ==> lib.jsonLoads(f.ingredients.value).Some?)
      && (Given(f.ingredients) && lib.jsonLoads(f.ingredients.value).Some? ==>
            Some(d.ingredients) == IntsOf(lib.jsonLoads(f.ingredients.value).value))
      && (!Given(f.ingredients) ==> d.ingredients == [])
    ensures ValidateMeal(lib, f).value.meal.description
         == Normalize(lib, if Given(f.description) then f.description.value else "")
  {
    ValidatedFields(lib, f);
    var m := ValidateMeal(lib, f).value.meal;
    FieldValue(f.mealEntry, OneOf(MealEntries), 3, 1, m.mealEntry);
    FieldValue(f.mealTime, OneOf(MealTimes), 4, -1, m.mealTime);
    FieldValue(f.season, OneOf(Seasons), 5, -1, m.season);
    FieldIff(f.preparationTime, NonNegative, 6);
    FieldIff(f.cookTime, NonNegative, 7);
  }

  lemma FieldValue(o: Option<string>, rule: Rule, code: int, default: int, v: int)
    requires Field(o, rule, code).Success? && v == GetOr(Field(o, rule, code).value, default)
    ensures Given(o) ==> Some(v) == ParseInt(o.value)
    ensures !Given(o) ==> v == default
  {
  }

  /** `int("0") == 0`. */
  lemma ParseZero()
    ensures ParseInt("0") == Some(0)
  {
    var z := "0";
    assert !IsIntSpace(z[0]);
    assert StripLeft(z) == z;
    assert StripRight(z) == z;
    assert Strip(z) == z;
    assert z[|z| - 1] != '_' && z[..0] == [];
    assert NumeralValue(z) == 0;
    assert IsNumeral(z);
  }

  /** A field sent as "0" passes a check that admits 0, with the value 0. */
  lemma ZeroField(rule: Rule, code: int)
    requires Accepts(rule, 0)
    ensures Field(Some("0"), rule, code) == Success(Some(0))
  {
    ParseZero();
  }

  /** A field sent as the decimal text of a value its check admits passes with
      that value, unless the text has more digits than `int()` reads. */
  lemma ShownField(n: int, rule: Rule, code: int)
    requires Accepts(rule, n)
    ensures ShownDigits(n) <= MaxStrDigits ==> Field(Some(Show(n)), rule, code) == Success(Some(n))
    ensures ShownDigits(n) > MaxStrDigits ==> Field(Some(Show(n)), rule, code) == Failure(code)
  {
    ParseIntOfShow(n);
    assert Show(n) != [];
  }

  /** "0" is a value that was sent, not an omitted field: a meal entry of "0"
      gives a starter, not the default main course. */
  lemma ZeroEntryIsKept(lib: Libs, title: string)
    requires title != ""
    ensures ValidateMeal(lib, MealForm(Some(title), None, Some("0"), None, None, None, None, None)).Success?
    ensures ValidateMeal(lib, MealForm(Some(title), None, Some("0"), None, None, None, None, None)).value.meal.mealEntry == 0
  {
    ZeroField(OneOf(MealEntries), 3);
    var form := MealForm(Some(title), None, Some("0"), None, None, None, None, None);
    assert ValidateMeal(lib, form) == Success(Draft(Meal(Normalize(lib, title), Normalize(lib, ""), 0, -1, -1, None, None), []));
  }

  // ---------------------------------------------------------------------------
  // Meal search
  // ---------------------------------------------------------------------------

  /** The query arguments of `GET /api/meals`, each absent or the string sent. */
  datatype SearchArgs = SearchArgs(
    title: Option<string>,
    mealEntry: Option<string>,
    mealTime: Option<string>,
    season: Option<string>,
    preparationTimeMax: Option<string>,
    cookTimeMax: Option<string>,
    totalTimeMax: Option<string>,
    ingredients: Option<string>)

  /** The conditions of the search query: each optional condition is present
      when its argument was sent, and every listed ingredient must be linked. */
  datatype Filter = Filter(
    titlePattern: Option<string>,
    mealEntry: Option<int>,
    mealTime: Option<int>,
    season: Option<int>,
    preparationTimeMax: Option<int>,
    cookTimeMax: Option<int>,
    totalTimeMax: Option<int>,
    ingredients: seq<int>)

  /** The `LIKE` pattern of a title query: `"%" + "%".join(unidecode(q).split()) + "%"`.
      Its meaning is proved in `SqlLike.WordsPatternFindsQuery` (the pattern matches
      every text containing the query) and `Handlers.TitleSearchFinds` (a search
      for any piece of a stored title finds the meal); the converse is not stated. */
  function TitlePattern(lib: Libs, q: string): (p: string)
    ensures |p| >= 2 && p[0] == '%' && p[|p| - 1] == '%'
  {
    WordsPattern(Words(Normalize(lib, q)))
  }

  /** The filter of the search, or the code of the first argument it rejects. */
  function ParseSearch(lib: Libs, a: SearchArgs): (r: Result<Filter, int>)
    ensures r.Success? ==> (r.value.titlePattern.Some? <==> Given(a.title))
    ensures r.Failure? ==> 3 <= r.error <= 10
  {
    var entry :- Field(a.mealEntry, OneOf(MealEntries), 3);
    var time :- Field(a.mealTime, OneOf(MealTimes), 4);
    var season :- Field(a.season, OneOf(Seasons), 5);
    var prep :- Field(a.preparationTimeMax, NonNegative, 6);
    var cook :- Field(a.cookTimeMax, NonNegative, 7);
    var total :- Field(a.totalTimeMax, NonNegative, 8);
    var ids :- IngredientIds(lib, a.ingredients, 9, 10);
    var title := if Given(a.title) then Some(TitlePattern(lib, a.title.value)) else None;
    Success(Filter(title, entry, time, season, prep, cook, total, ids))
  }

  /** The checks of the search in the order it makes them, each with its code. */
  function SearchChecks(lib: Libs, a: SearchArgs): seq<(bool, int)> {
    [ (FieldOk(a.mealEntry, OneOf(MealEntries)), 3),
      (FieldOk(a.mealTime, OneOf(MealTimes)), 4),
      (FieldOk(a.season, OneOf(Seasons)), 5),
      (FieldOk(a.preparationTimeMax, NonNegative), 6),
      (FieldOk(a.cookTimeMax, NonNegative), 7),
      (FieldOk(a.totalTimeMax, NonNegative), 8),
      (JsonOk(lib, a.ingredients), 9),
      (ItemsOk(lib, a.ingredients), 10) ]
  }

  /** The search rejects its arguments exactly when a check fails, with the code
      of the first one. */
  lemma ParseSearchFirstFailure(lib: Libs, a: SearchArgs)
    ensures ParseSearch(lib, a).Failure? <==> FirstFailure(SearchChecks(lib, a)).Some?
    ensures ParseSearch(lib, a).Failure? ==> FirstFailure(SearchChecks(lib, a)) == Some(ParseSearch(lib, a).error)
  {
    FieldIff(a.mealEntry, OneOf(MealEntries), 3);
    FieldIff(a.mealTime, OneOf(MealTimes), 4);
    FieldIff(a.season, OneOf(Seasons), 5);
    FieldIff(a.preparationTimeMax, NonNegative, 6);
    FieldIff(a.cookTimeMax, NonNegative, 7);
    FieldIff(a.totalTimeMax, NonNegative, 8);
    IngredientIdsIff(lib, a.ingredients, 9, 10);
    FirstFailureChain(SearchChecks(lib, a));
  }

  /** On success each condition of the filter is the value `int()` reads from
      its argument, and absent when the argument was not sent (or empty); the
      ingredient ids are the decoded JSON list, each read by `int()`; the title
      condition is the pattern built from the words of the query. */
  lemma SearchFilterValues(lib: Libs, a: SearchArgs)
    requires ParseSearch(lib, a).Success?
    ensures var g := ParseSearch(lib, a).value;
      && g.titlePattern == (if Given(a.title) then Some(TitlePattern(lib, a.title.value)) else None)
      && g.mealEntry == (if Given(a.mealEntry) then ParseInt(a.mealEntry.value) else None)
      && g.mealTime == (if Given(a.mealTime) then ParseInt(a.mealTime.value) else None)
      && g.season == (if Given(a.season) then ParseInt(a.season.value) else None)
      && g.preparationTimeMax == (if Given(a.preparationTimeMax) then ParseInt(a.preparationTimeMax.value) else None)
      && g.cookTimeMax == (if Given(a.cookTimeMax) then ParseInt(a.cookTimeMax.value) else None)
      && g.totalTimeMax == (if Given(a.totalTimeMax) then ParseInt(a.totalTimeMax.value) else None)
    ensures var g := ParseSearch(lib, a).value;
      && (g.mealEntry.Some? ==> g.mealEntry.value in MealEntries)
      && (g.mealTime.Some? ==> g.mealTime.value in MealTimes)
      && (g.season.Some? ==> g.season.value in Seasons)
      && (g.preparationTimeMax.Some? ==> g.preparationTimeMax.value >= 0)
      && (g.cookTimeMax.Some? ==> g.cookTimeMax.value >= 0)
      && (g.totalTimeMax.Some? ==> g.totalTimeMax.value >= 0)
    ensures var g := ParseSearch(lib, a).value;
      && (Given(a.ingredients) ==> lib.jsonLoads(a.ingredients.value).Some?
                                   && Some(g.ingredients) == IntsOf(lib.jsonLoads(a.ingredients.value).value))
      && (!Given(a.ingredients) ==> g.ingredients == [])
  {
    FieldIff(a.mealEntry, OneOf(MealEntries), 3);
    FieldIff(a.mealTime, OneOf(MealTimes), 4);
    FieldIff(a.season, OneOf(Seasons), 5);
    FieldIff(a.preparationTimeMax, NonNegative, 6);
    FieldIff(a.cookTimeMax, NonNegative, 7);
    FieldIff(a.totalTimeMax, NonNegative, 8);
  }

  /** A maximum sent as "0" is applied as `<= 0`, not dropped. */
  lemma ZeroMaxIsApplied(lib: Libs)
    ensures ParseSearch(lib, SearchArgs(None, None, None, None, Some("0"), Some("0"), Some("0"), None))
         == Success(Filter(None, None, None, None, Some(0), Some(0), Some(0), []))
  {
    ZeroField(NonNegative, 6);
    ZeroField(NonNegative, 7);
    ZeroField(NonNegative, 8);
  }

  /** A search without arguments has no condition. */
  lemma ParseSearchNoArgs(lib: Libs)
    ensures ParseSearch(lib, SearchArgs(None, None, None, None, None, None, None, None))
         == Success(Filter(None, None, None, None, None, None, None, []))
  {
  }

  /** Two argument lists that differ only in maxima that both pass their checks
      are refused alike, and otherwise give filters that differ only in those
      maxima. */
  lemma ParseSearchMaxima(lib: Libs, a: SearchArgs, b: SearchArgs)
    requires a.(preparationTimeMax := None, cookTimeMax := None, totalTimeMax := None)
          == b.(preparationTimeMax := None, cookTimeMax := None, totalTimeMax := None)
    requires Field(a.preparationTimeMax, NonNegative, 6).Success? && Field(b.preparationTimeMax, NonNegative, 6).Success?
    requires Field(a.cookTimeMax, NonNegative, 7).Success? && Field(b.cookTimeMax, NonNegative, 7).Success?
    requires Field(a.totalTimeMax, NonNegative, 8).Success? && Field(b.totalTimeMax, NonNegative, 8).Success?
    ensures ParseSearch(lib, a).Failure? ==> ParseSearch(lib, b) == ParseSearch(lib, a)
    ensures ParseSearch(lib, a).Success? ==> ParseSearch(lib, b).Success?
    ensures ParseSearch(lib, a).Success? ==>
      ParseSearch(lib, b).value == ParseSearch(lib, a).value.(preparationTimeMax := Field(b.preparationTimeMax, NonNegative, 6).value,
                                                               cookTimeMax := Field(b.cookTimeMax, NonNegative, 7).value,
                                                               totalTimeMax := Field(b.totalTimeMax, NonNegative, 8).value)
  {
    MaximaApart(lib, a);
    MaximaApart(lib, b);
  }

  /** When the three maxima pass their checks, the search parses as it does
      without them, with their values put in. */
  lemma MaximaApart(lib: Libs, a: SearchArgs)
    requires Field(a.preparationTimeMax, NonNegative, 6).Success?
    requires Field(a.cookTimeMax, NonNegative, 7).Success?
    requires Field(a.totalTimeMax, NonNegative, 8).Success?
    ensures var n := ParseSearch(lib, a.(preparationTimeMax := None, cookTimeMax := None, totalTimeMax := None));
      ParseSearch(lib, a)
      == if n.Failure? then n
         else Success(n.value.(preparationTimeMax := Field(a.preparationTimeMax, NonNegative, 6).value,
                               cookTimeMax := Field(a.cookTimeMax, NonNegative, 7).value,
                               totalTimeMax := Field(a.totalTimeMax, NonNegative, 8).value))
  {
  }

  /** The query builder of the search as the handler runs it: one argument at a
      time, then one condition per element of the ingredient list. */
  method BuildFilter(lib: Libs, a: SearchArgs) returns (r: Result<Filter, int>)
    ensures r == ParseSearch(lib, a)
  {
    var f := Filter(None, None, None, None, None, None, None, []);
    if Given(a.title) {
      f := f.(titlePattern := Some(TitlePattern(lib, a.title.value)));
    }
    var entry := Field(a.mealEntry, OneOf(MealEntries), 3);
    if entry.Failure? { return Failure(entry.error); }
    f := f.(mealEntry := entry.value);
    var time := Field(a.mealTime, OneOf(MealTimes), 4);
    if time.Failure? { return Failure(time.error); }
    f := f.(mealTime := time.value);
    var season := Field(a.season, OneOf(Seasons), 5);
    if season.Failure? { return Failure(season.error); }
    f := f.(season := season.value);
    var prep := Field(a.preparationTimeMax, NonNegative, 6);
    if prep.Failure? { return Failure(prep.error); }
    f := f.(preparationTimeMax := prep.value);
    var cook := Field(a.cookTimeMax, NonNegative, 7);
    if cook.Failure? { return Failure(cook.error); }
    f := f.(cookTimeMax := cook.value);
    var total := Field(a.totalTimeMax, NonNegative, 8);
    if total.Failure? { return Failure(total.error); }
    f := f.(totalTimeMax := total.value);
    if Given(a.ingredients) {
      var decoded := lib.jsonLoads(a.ingredients.value);
      if decoded.None? { return Failure(9); }
      var items := decoded.value;
      var i := 0;
      ghost var before := f;
      while i < |items|
        invariant 0 <= i <= |items|
        invariant f == before.(ingredients := f.ingredients)
        invariant |f.ingredients| == i
        invariant forall k :: 0 <= k < i ==> IntOf(items[k]) == Some(f.ingredients[k])
      {
        var v := IntOf(items[i]);
        if v.None? { return Failure(10); }
        f := f.(ingredients := f.ingredients + [v.value]);
        i := i + 1;
      }
      assert IntsOf(items).Some?;
      assert IntsOf(items).value == f.ingredients;
      assert IngredientIds(lib, a.ingredients, 9, 10) == Success(f.ingredients);
    } else {
      assert IngredientIds(lib, a.ingredients, 9, 10) == Success(f.ingredients);
    }
    assert f == Filter(if Given(a.title) then Some(TitlePattern(lib, a.title.value)) else None,
                       entry.value, time.value, season.value, prep.value, cook.value, total.value, f.ingredients);
    r := Success(f);
  }
}
