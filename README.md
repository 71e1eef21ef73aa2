# Meal catalogue API — a Dafny model

This project models the request handlers of a single-user recipe catalogue
(`application.py`), a Flask application that keeps meals, ingredients and the
links between them in three SQLite tables: `meals`, `ingredients` and
`meal_ingredients`. The model has two parts.

- **Parameter handling.** The create form of `POST /api/meals` becomes
  `Forms.ValidateMeal`. It maps optional strings to a validated meal row or to
  the code of the first check that fails. The query arguments of
  `GET /api/meals` become `Forms.ParseSearch`: a filter, or an error code.
  `Forms.BuildFilter` is the same builder written the way the handler runs it,
  one argument at a time and one condition per listed ingredient.
- **The tables.** `Schema.Tables` holds the three tables as values: a map from
  id to meal, a map from id to ingredient name, the join rows in insertion
  order, and the next id of each table. `Handlers` gives, for every handler,
  its reply and the tables after it as a function of the tables before.
  `Database.Store` is the database as an object whose fields the handlers
  update in place. Each of its methods is one request and is proved to leave
  exactly the state the matching `Handlers` function gives.

Python's own behaviour is written out where the handlers depend on it:

- the truthiness of an optional form value (`PyText.Given`): a missing key and
  `""` are false, every other string is true, `"0"` included;
- `int()` on a string (`PyText.ParseInt`): surrounding whitespace as `int()`
  strips it (`PyText.IsIntSpace`: ASCII tab to carriage return and space, and
  non-ASCII `str.isspace()` characters, but not the separators U+001C to
  U+001F that `str.split()` splits on), a sign, ASCII digits, single
  underscores between digits, and at most 4300 digits (`PyText.MaxStrDigits`);
- `str.split()`, `"%".join(...)` and `str.lower()`.

Two libraries are parameters (`Forms.Libs`). `unidecode` is a table from
each non-ASCII character to its replacement text; ASCII characters pass
through. `json.loads` is a function that gives the elements of the decoded
array, or `None` where it raises `JSONDecodeError`. SQLite's `LIKE`
(`SqlLike.Like`) is defined with `%`, `_` and ASCII case folding, so that
lemmas can show which meals and ingredients a search finds.

Conventions:

- Ids start at 1, and each table hands out ids from its own counter.
- Storage order, the order of a `SELECT` without `ORDER BY`, is ascending id.
- Error codes are the codes each handler answers; code 0 (success) is the
  `Success` case of `Wrappers.Result`.

The code is followed where the comments or the intent disagree with it:

- A search maximum sent as `"0"` is applied as `<= 0`. The handler's own
  comment says 0 means "any".
- A time maximum never holds for a meal whose time is NULL. This follows
  SQL's NULL comparison, also for the total of the two times.
- A search lists a meal's ingredient ids straight from the join table. Reading
  a meal by id lists only those whose ingredient still exists.
- Deleting an ingredient removes the join rows whose *meal* id equals the
  ingredient id (see Findings).

## Model

| member | source | states |
|---|---|---|
| `Forms.ValidateMeal` | application.py:334-409 | without a title (absent or `""`) the answer is code 1; a validated row has its enums in range, non-negative times and the transliterated title |
| `Forms.ValidateMealFirstFailure` | application.py:334-409 | validation fails exactly when one of the checks title, meal_entry, meal_time, season, preparation_time, cook_time, JSON, elements fails, and it answers the code (1, 3, 4, 5, 6, 7, 8, 9) of the first failing one in that order |
| `Forms.Field` | application.py:342-395 | an optional integer field is absent/empty (no value) or parses and satisfies its range; otherwise the answer is that field's code |
| `Forms.IngredientIds` | application.py:397-409 | an optional ingredient list answers only its JSON code or its element code |
| `Forms.IngredientIdsIff` | application.py:397-409 | the list is accepted exactly when it is absent/empty or decodes with every element integer; a refused list answers the JSON code when it does not decode, the element code otherwise |
| `Forms.DefaultsWhenOmitted` | application.py:338-398 | a form with only a title gets description `""`, meal_entry 1, meal_time -1, season -1, no times and no ingredients |
| `Forms.EmptyIsOmitted` | application.py:338-398 | sending `""` for any of the seven optional fields (description, meal_entry, meal_time, season, preparation_time, cook_time, ingredients) is the same as leaving it out |
| `Forms.ValidatedValues` | application.py:336-409 | on success the description is the transliterated text sent (or `""`), each sent integer field holds the value `int()` reads from it, each omitted one its default, and the ingredient list is the elements of the decoded JSON converted by `int()` |
| `Forms.ZeroEntryIsKept` | application.py:342-351 | a meal_entry of `"0"` counts as sent and gives entry 0, not the default 1 |
| `Forms.ParseZero` | application.py:346 | `int("0") == 0` |
| `Forms.FirstFailure` | application.py:342-409 | no code is found exactly when every check passes |
| `Forms.TitlePattern` | application.py:180 | the title pattern starts and ends with `%` |
| `Forms.ParseSearch` | application.py:178-266 | the filter carries a title pattern exactly when a title was sent; a refusal answers a code between 3 and 10 (the values are stated by `Forms.SearchFilterValues`) |
| `Forms.ParseSearchFirstFailure` | application.py:182-266 | the search refuses its arguments exactly when one check fails, with the code (3 to 10) of the first failing one in argument order |
| `Forms.SearchFilterValues` | application.py:178-266 | on success the title condition is the pattern of the query's words; each other condition is `int()` of its argument (and in range) when sent and absent when not; the ingredient ids are the decoded JSON list converted by `int()` |
| `Forms.ParseSearchMaxima` | application.py:218-252 | two argument lists that differ only in accepted maxima are refused alike, or give filters that differ only in those maxima |
| `Forms.ZeroMaxIsApplied` | application.py:218-252 | maxima sent as `"0"` become the conditions `<= 0`, not "no condition" |
| `Forms.BuildFilter` | application.py:175-266 | the step-by-step builder, with its loop over the ingredient list, answers exactly the filter or code `ParseSearch` gives |
| `PyText.ParseIntOfShow` | application.py:346 | `int(str(n)) == n` for every integer of at most 4300 digits, and the rendering of every longer one is refused |
| `PyText.ParseInt` | application.py:346 | a string `int()` accepts has a non-blank stripped form, and a negative result comes from a leading `-` |
| `PyText.IntStripsSpaces` | application.py:346 | `int(" 5\n")` is 5: leading and trailing spaces and newlines are ignored |
| `PyText.IntStripsNoBreakSpace` | application.py:346 | `int("\xa05")` is 5: non-ASCII whitespace is stripped too |
| `PyText.IntKeepsSeparator` | application.py:346 | U+001C is whitespace to `str.isspace()`, yet `int("\x1c5")` raises ValueError (None here) |
| `PyText.DigitsParse` | application.py:346 | a non-empty run of ASCII digits is read as its decimal value when it has at most 4300 digits, and refused when it has more |
| `PyText.IntRefusesLongNumeral` | application.py:346 | `int("0" * 4300 + "5")` raises ValueError (None here): leading zeros count toward the limit |
| `PyText.Words` | application.py:180 | `str.split()` gives only non-empty words without whitespace; all-blank text gives no word and text without whitespace gives itself |
| `PyText.Join` | application.py:180 | a `join` starts with the first word and ends with the last |
| `PyText.SplitOfJoin` | application.py:180 | `" ".join(ws).split() == ws` for every list of non-empty words without whitespace: splitting undoes joining |
| `PyText.WordsFromShift` | application.py:180 | the words read in a string from an offset on are the words of the text that follows there |
| `PyText.Unidecode` | application.py:336 | ASCII text is unchanged; with an ASCII table the result is ASCII |
| `PyText.Lower` | application.py:495 | lower-casing keeps the length, leaves no upper-case letter and changes exactly the upper-case letters |
| `Json.IntOf` | application.py:407 | `int()` of a JSON number is itself, of a boolean 0 or 1, of a string its parse |
| `Json.IntsOf` | application.py:405-409 | the list converts exactly when every element does, and then element by element |
| `Json.IntsOfShown` | application.py:405-409 | a list of decimal strings converts back to the numbers when none has more than 4300 digits, and is refused otherwise |
| `SqlLike.WordsPattern` | application.py:180 | the `%`-joined word pattern starts and ends with `%` |
| `SqlLike.LiteralLikeIff` | application.py:462 | a pattern without wildcards matches exactly the strings equal to it up to ASCII letter case |
| `SqlLike.SameTextMatches` | application.py:180 | text placed in a pattern matches the same text in any ASCII letter case, `%` and `_` included, followed by a match of the rest |
| `SqlLike.WordsPatternFindsQuery` | application.py:178-180 | the title pattern of any query, `%` and `_` included, matches every text that contains that query |
| `SqlLike.ContainsPatternFinds` | application.py:462 | `%` + a query + `%` matches every text containing the query in any ASCII letter case, whatever wildcards the query holds |
| `Schema.IdsBelow` | application.py:413 | a selection lists in ascending id order exactly the ids below the counter that satisfy the condition |
| `Schema.Consistent` | application.py:411-430 | in consistent tables the next id of each table is free and every join row belongs to a stored meal |
| `Schema.TitleTakenIff` | application.py:413-414 | the title query finds a row exactly when some stored meal has that title |
| `Schema.NameTakenIff` | application.py:501-502 | the name query finds a row exactly when some stored ingredient has that name |
| `Schema.TitleQueryUnique` | application.py:422 | with unique titles the title query returns just the meal that has it |
| `Schema.NameQueryUnique` | application.py:504 | with unique names the name query returns just the ingredient that has it |
| `Schema.LinksFor` | application.py:424-426 | one join row per listed id, in list order, all for the new meal |
| `Schema.LinkedWhereOfLinksFor` | application.py:97-99 | a new meal's join rows read back give its listed ids that pass the condition, in list order |
| `Schema.DropLinks` | application.py:120 | a join-row delete keeps exactly the rows the condition does not select, and no more rows than there were |
| `Schema.LinkedWhereCounts` | application.py:97-100 | each id that passes the condition is read back once per join row pairing it with the meal; no other id is read |
| `Schema.DropLinksCounts` | application.py:120 | each row the condition does not select is kept as many times as it was stored; no selected row is kept |
| `Schema.DropLinksTwice` | application.py:120 | repeating a join-row delete removes nothing more |
| `Handlers.CreateMealRows` | application.py:411-430 | the title check answers 2 exactly when some stored meal has the title, changing nothing; a success leaves the ingredients table unchanged |
| `Handlers.CreateMeal` | application.py:334-430 | without a title the answer is 1 with nothing changed; every refusal answers a code from 1 to 9 and changes nothing; the ingredients table and its counter never change |
| `Handlers.InsertMealOutcome` | application.py:417-426 | inserting a title no meal has, with its join rows, gives consistent tables and is the outcome of the store part of the request |
| `Handlers.CreateMealRowsFresh` | application.py:417-430 | on success the reply is the next meal id, the meal is stored under it, one join row per listed id is appended in order, and nothing else changes |
| `Handlers.InsertedTitleFound` | application.py:422 | after inserting a title no meal had, the title query finds only the new id |
| `Handlers.CreateMealCases` | application.py:334-430 | a refused form answers its code with the tables unchanged; a taken title answers 2 with the tables unchanged; otherwise the meal and its join rows are added under the next id |
| `Handlers.ValidationBeforeDuplicateCheck` | application.py:334-415 | a form that fails validation answers its validation code whatever the tables hold, before any title check |
| `Handlers.CreateMealKeepsConsistent` | application.py:411-430 | meal creation keeps ids below the counter, titles unique, stored rows in range and join rows attached to stored meals |
| `Handlers.InsertMealKeepsConsistent` | application.py:417-426 | inserting a new title under the next id with its join rows keeps the tables consistent |
| `Handlers.SecondCreateSameTitleRejected` | application.py:413-415 | after one create, a second whose title normalises to the same text answers 2 and inserts nothing |
| `Handlers.GetMeal` | application.py:90-112 | code 1 exactly when the id is not stored; otherwise the stored row, and an id is listed exactly when a join row pairs it with the meal and the ingredient is stored (the inner join) |
| `Handlers.GetMealCounts` | application.py:97-100 | each stored ingredient is listed as many times as join rows pair it with the meal; no other id is listed |
| `Handlers.CreateThenGetMeal` | application.py:90-112 | a created meal read back by its id is the validated row, with the normalised title and the listed ingredients that exist |
| `Handlers.GetAfterInsert` | application.py:97-100 | the meal just inserted reads back with the listed ingredients that are stored |
| `Handlers.DeleteMeal` | application.py:119-121 | always success; the meal row goes; every join row of that meal goes and every other join row is kept with its multiplicity; ingredients and both counters stay |
| `Handlers.DeleteMealIdempotent` | application.py:119-121 | deleting a meal twice is deleting it once |
| `Handlers.DeleteMissingMeal` | application.py:119-121 | deleting an id that is not stored succeeds and changes nothing |
| `Handlers.DeleteMealKeepsConsistent` | application.py:119-121 | deleting a meal keeps the tables consistent |
| `Handlers.DeleteThenGetMeal` | application.py:90-121 | after a delete the meal reads back as code 1 |
| `Handlers.SqlAdd` | application.py:251 | the SQL sum of two times is NULL exactly when either is NULL |
| `Handlers.Matches` | application.py:182-266 | a meal that meets a filter has a join row for each required ingredient, and a non-NULL time within each maximum sent (both times, with their sum within a total maximum) |
| `Handlers.SearchMeals` | application.py:272-289 | every listed meal is stored, satisfies the filter and carries its join-table ingredient ids; the list is in storage order |
| `Handlers.Search` | application.py:157-289 | the search refuses exactly the arguments the filter refuses, with that code (3 to 10); every listed meal is stored and meets the filter |
| `Handlers.SearchIff` | application.py:272-276 | a stored meal is listed exactly when it satisfies every condition of the filter |
| `Handlers.SearchFindsMatches` | application.py:272-276 | every stored meal that satisfies the filter is listed |
| `Handlers.EntrySearchesPartition` | application.py:182-192 | the searches for meal_entry 0, 1 and 2 each find a meal exactly when it has that entry, so they partition the meals |
| `Handlers.EntryRequestsPartition` | application.py:157-289 | the requests with `meal_entry` 0, 1 and 2 each succeed, and each stored meal is listed by the request for its own entry and by no other |
| `Handlers.NullTimeNeverMatches` | application.py:227-251 | a meal with no cook time fails every cook or total maximum; one with no preparation time fails every preparation or total maximum |
| `Handlers.ZeroPreparationMax` | application.py:218-228 | a preparation maximum of `"0"` finds exactly the meals whose preparation time is 0 |
| `Handlers.ZeroMaxDropsMeals` | application.py:218-228 | a meal without times is found by the unfiltered search and not by one with preparation maximum `"0"` |
| `Handlers.ZeroAsAny` | application.py:137-140 | the documented reading of a maximum is never 0 and leaves other maxima as they are |
| `Handlers.DocumentedMaxima` | application.py:137-140 | the documented filter has no zero maximum and keeps every other condition |
| `Handlers.SearchAsDocumented` | application.py:137-140 | read as documented, the search refuses the same arguments, and every listed meal meets the filter with zero maxima dropped |
| `Handlers.ZeroMaximaAsDocumented` | application.py:137-140 | read as documented, maxima of `"0"` give exactly the search without those arguments |
| `Handlers.TitleSearchFinds` | application.py:178-180 | a title search for any piece of a title, whatever its spacing or wildcards, finds that meal |
| `Handlers.CreateThenSearchByTitle` | application.py:178-289 | a meal just created is found by a search for its own title, with its ingredients as listed |
| `Handlers.SearchViewAfterInsert` | application.py:288 | a meal just inserted is listed by the search with its ingredients as given, missing ones included |
| `Handlers.SearchAndGetDisagree` | application.py:97-99 | a join row to a missing ingredient is listed by the search and not by reading the meal by id |
| `Handlers.CreateIngredient` | application.py:494-509 | a missing or empty name answers 1 and changes nothing; every refusal changes nothing; meals and join rows never change |
| `Handlers.IngredientName` | application.py:495 | the stored name has the length of the transliteration and no upper-case ASCII letter; it is ASCII when every transliteration is |
| `Handlers.CreateIngredientCases` | application.py:494-509 | for consistent tables: if some stored ingredient has the stored form of the name the answer is 2 with nothing changed, otherwise the name is stored under the next id, which is the reply |
| `Handlers.CreateIngredientRow` | application.py:499-509 | the name check answers 2 exactly when some stored ingredient has the name, changing nothing; meals and join rows never change |
| `Handlers.CreateIngredientFresh` | application.py:494-507 | on success the reply is the next ingredient id and exactly one row, the lower-cased transliterated name, is added under it |
| `Handlers.InsertedNameFound` | application.py:504 | after inserting a name no ingredient had, the name query finds only the new id |
| `Handlers.CreateIngredientKeepsConsistent` | application.py:494-509 | ingredient creation keeps the tables consistent |
| `Handlers.InsertIngredientOutcome` | application.py:503-504 | inserting a name no ingredient has gives consistent tables and is the outcome of the store part of the request |
| `Handlers.SecondCreateSameNameRejected` | application.py:501-509 | after one create, a second with the same stored name (for instance differing only in ASCII case) answers 2 and changes nothing |
| `Handlers.GetIngredient` | application.py:523-530 | code 1 exactly when the id is not stored; otherwise that id and its name |
| `Handlers.CreateThenGetIngredient` | application.py:494-530 | an ingredient just created reads back by id with its stored name |
| `Handlers.DeleteIngredient` | application.py:538-541 | always success; the ingredient row goes; every join row whose meal id equals the id goes and every other join row is kept with its multiplicity; meals and both counters stay |
| `Handlers.DeleteIngredientIntended` | application.py:533-541 | always success; the ingredient row goes; every join row naming that ingredient goes and every other join row is kept with its multiplicity; meals and both counters stay |
| `Handlers.DeleteIngredientIntendedUnlinks` | application.py:536 | after the documented delete no meal lists the ingredient, and every other listed ingredient remains |
| `Handlers.DeleteIngredientAsWrittenKeepsRows` | application.py:539-540 | as written, deleting ingredient 5 keeps the row (1, 5), and deleting ingredient 1 drops the rows of meal 1 |
| `Handlers.DeleteIngredientIdempotent` | application.py:538-541 | both forms of the ingredient delete are idempotent |
| `Handlers.DeleteThenGetIngredient` | application.py:523-540 | after a delete the ingredient reads back as code 1 |
| `Handlers.DeleteIngredientKeepsConsistent` | application.py:538-541 | the ingredient delete as written keeps the tables consistent |
| `Handlers.DeleteIngredientIntendedKeepsConsistent` | application.py:533-541 | the documented ingredient delete keeps the tables consistent |
| `Handlers.LinkedIdsMember` | application.py:270 | an id is listed for a meal exactly when some join row pairs them |
| `Handlers.ListIngredients` | application.py:454-480 | without a query the answer is 1; with a query, a mode other than search (the default) and many answers 2, and many mode with an undecodable list answers 3; every listed ingredient is stored, under the listed name |
| `Handlers.SelectIngredientsIff` | application.py:463-480 | a stored ingredient is listed exactly when it satisfies the condition |
| `Handlers.SelectIngredients` | application.py:463-480 | every listed ingredient meets the condition and is stored under the listed name; the list is in storage order |
| `Handlers.ListIngredientsSearchIff` | application.py:458-464 | in search mode a stored ingredient is listed exactly when its name is LIKE `%` + the transliterated query + `%` |
| `Handlers.ListedByOwnName` | application.py:458-464 | a search whose transliteration, lower-cased, is a stored name finds that ingredient, whatever `%` or `_` it holds |
| `Handlers.CreateThenListIngredient` | application.py:462-464 | an ingredient just created is found by any search stored as the same name: the name typed in another case, or with accents that transliterate alike ("Café" finds "cafe" when the table maps é to e) |
| `Handlers.ManyListsRequested` | application.py:466-474 | many mode lists a stored ingredient exactly when the decoded list names its id |
| `Database.Store.CreateMeal` | application.py:322-430 | keeps the store consistent; reply and new state are those of `Handlers.CreateMeal` |
| `Database.Store.InsertMeal` | application.py:411-430 | keeps the store consistent; reply and new state are those of `Handlers.CreateMealRows` |
| `Database.Store.AddLinks` | application.py:424-426 | appends one join row per id in list order; nothing else changes |
| `Database.Store.GetMeal` | application.py:90-112 | answers what `Handlers.GetMeal` gives, changing nothing |
| `Database.Store.JoinedIngredients` | application.py:97-100 | one pass over the join rows gives exactly the meal's stored ingredient ids in join-table order |
| `Database.Store.DeleteMeal` | application.py:119-121 | keeps the store consistent; new state is that of `Handlers.DeleteMeal` |
| `Database.Store.SearchMeals` | application.py:157-289 | answers what `Handlers.Search` gives, changing nothing |
| `Database.Store.CreateIngredient` | application.py:494-509 | keeps the store consistent; reply and new state are those of `Handlers.CreateIngredient` |
| `Database.Store.InsertIngredient` | application.py:499-509 | keeps the store consistent; reply and new state are those of `Handlers.CreateIngredientRow` |
| `Database.Store.GetIngredient` | application.py:523-530 | answers what `Handlers.GetIngredient` gives, changing nothing |
| `Database.Store.DeleteIngredient` | application.py:538-541 | keeps the store consistent; new state is that of `Handlers.DeleteIngredient`, the delete as written |
| `Database.Store.ListIngredients` | application.py:454-480 | dispatches on the mode as the handler does, and answers what `Handlers.ListIngredients` gives, changing nothing |
| `Database.Store.Select` | application.py:463-480 | one pass over the ids gives exactly the selection `Handlers.SelectIngredients` describes |

## Left out

- Flask routing, the session gate (`login_required`), login and logout, templates, the `jsonify` envelope and HTTP status codes. A reply is the `Result` of a handler: `Success` for code 0, `Failure(code)` otherwise.
- SQLite connections and cursors. Each handler is one atomic method on the in-memory store, although the original handlers issue several statements without a transaction.
- Random mode of `GET /api/meals` (`random.choice`): it is nondeterministic, and it raises on an empty result. The test `mode == "search"` at line 160 compares and discards its result, so every other mode searches.
- The inside of `unidecode` and `json.loads`: both are parameters. JSON values other than numbers, strings and booleans (floats, null, nested lists, objects) are not modelled; `int()` of a float truncates, and `int()` of null, a list or an object raises an uncaught `TypeError`.
- A JSON document that is not an array is not modelled. A string document is iterated character by character and an object by its keys, so `"12"` passes the element check and creates join rows for `"1"` and `"2"`; a number or `null` raises an uncaught `TypeError` in the loop at line 405 (line 261 in the search, and in `len()` at line 472 in many mode).
- `Handlers.ManyListsRequested`: a JSON string element matches an id only when it is the id's plain decimal rendering. SQLite's full text-to-integer conversion is not modelled.
- An `ESCAPE` clause of `LIKE`: the handlers use none.
- `PyText.Lower` lower-cases ASCII letters only. `str.lower()` also lower-cases other letters. The two agree when the transliteration table yields ASCII text, as `unidecode`'s does; the table is a parameter, so `Handlers.IngredientName` states the ASCII result only under that assumption.
- `PyText.ParseInt` applies the 4300-digit limit of CPython 3.11 and later and of the security releases of 3.7 to 3.10. Older Pythons have no limit, and a limit changed through `sys.set_int_max_str_digits` or `PYTHONINTMAXSTRDIGITS` is not modelled.
- `PyText.ParseInt` accepts ASCII digits only. Python's `int()` also accepts other Unicode decimal digits, such as Arabic-Indic `"١"` or fullwidth `"１"`, and the model refuses those.
- SQLite's 64-bit INTEGER limit is not modelled; integers are unbounded. A preparation time of more than 64 bits but at most 4300 digits, such as `"99999999999999999999"`, passes every check, and the INSERT at line 417 then raises `OverflowError`. An out-of-range ingredient id raises at line 425 after the meal row and the earlier join rows are written, leaving a partial meal. Search maxima and `<int:id>` route ids out of range raise in the same way.
- Ids are never reused. SQLite without AUTOINCREMENT may reuse the largest id after it is deleted.
- Ingredient ids in the join table are stored as `int()` of the JSON element. The original binds the element as decoded, relying on the column's INTEGER affinity.
- The limit of fewer than 100 ids in ingredient many mode exists only in a comment (line 446); the code does not enforce it.

## Findings

| source | as written | input that shows it | evidently intended | confidence | as-written member | corrected member |
|---|---|---|---|---|---|---|
| application.py:540 | the ingredient delete removes join rows `WHERE meal_id=?` | meal 1 linked to ingredients 1 and 5; deleting ingredient 5 keeps row (1, 5); deleting ingredient 1 drops both rows of meal 1 | remove the join rows `WHERE ingredient_id=?`, as the comment at line 536 says | high, not executed | `Handlers.DeleteIngredientAsWrittenKeepsRows` | `Handlers.DeleteIngredientIntendedUnlinks` |
| application.py:218-252 | a maximum sent as `"0"` is applied as `<= 0` | one meal with no times; the search with `preparation_time_max=0` answers `[]`, the search without it answers the meal | 0 means "any", as the comments at lines 137-140 say | medium, not executed | `Handlers.ZeroMaxDropsMeals` | `Handlers.ZeroMaximaAsDocumented` |

The store (`Database.Store.DeleteIngredient`) and the search keep the behaviour as written. The corrected definitions (`Handlers.DeleteIngredientIntended`, `Handlers.SearchAsDocumented`) stand beside them with their properties proved.
