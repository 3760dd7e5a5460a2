# Weeklies meal planner: a Dafny model of its core

Weeklies plans a user's meals. It stores the plan as a compact token stream
`[YYYY-MM-DD,item_id,meal]...` on the user record, shows it in a month
calendar, and picks menu items with a text-generation model. When that model
is unavailable, a deterministic fallback chooses the first candidate. Around
the plan sit:

- the restaurant side of the order workflow: Ordered, Accepted, Preparing,
  Ready, Delivered, plus Cancelled;
- small validation and paging rules of the web application;
- a one-off script that rewrites legacy order statuses;
- a script that merges a backup database into the current one without
  duplicating rows.

This project models those parts and proves what they promise. The modules
are listed below.

- `Text` (text.dfy): the Python string operations the other modules use.
  - `str.strip` over the full `str.isspace` set, `split`, `join` and `find`;
  - decimal rendering;
  - Python's `int()` on a string: surrounding whitespace, an optional sign,
    and digits with single underscores between them.
- `PlanFormat` (plan_format.dfy): `parse_generated_menu`.
  - The regular expression is a deterministic matcher; the pattern leaves no
    room for backtracking to change a match.
  - `FindAll` models `re.findall` and is specified by a round trip.
  - The parsing loop is a method proved to group the triples by date in
    source order.
- `CalendarView` (calendar_view.dfy): `palette_for_item_ids` (the integer hue
  seed) and `build_calendar_cells`.
  - The stable sort of a day's entries by meal is an insertion sort, proved
    sorted, a permutation and stable.
  - The week grid is an input.
- `OrderWorkflow` (order_workflow.dfy): the five restaurant handlers.
  - They are methods of a class `OrderBoard` whose `orders` map is changed
    in place.
  - Each handler is specified by the functions `Decide` and `Apply`, whose
    lemmas give the guard codes, the transition graph, the frame and
    monotonicity along any run.
  - The status badge counts and the grouping of the orders page are loops
    proved against counting and filtering functions.
- `WebRules` (web_rules.dfy):
  - the `restaurant_required` guard predicate;
  - `_addr`;
  - the checks of `register`, `change_password` and the review form;
  - the paging of `db_view` and `restaurant_reviews`.
- `Oracle` (llm_oracle.dfy): class `LLM` with the state its constructor sets,
  `_generate_fallback` as a loop over the context lines, and the dispatch of
  `generate`.
- `MenuHelpers` (menu_helpers.dfy): the planning helpers of
  `menu_generation.py`.
  - That file is not part of this model. Its helpers are defined here from
    what the unit tests assert about them.
  - The helpers are the meal slot table, Gregorian next day and weekday,
    `format_llm_output`, the size of `limit_scope`, `filter_allergens` and
    `filter_closed_restaurants`.
- `StatusNormalize` (status_normalize.dfy): the `status_mappings` table and
  the loop of per-key `UPDATE`s.
  - That loop runs over an `array` of statuses in place.
  - It is proved equal to mapping each row once and to count exactly the
    rows it changed.
- `SeedMerge` (seed_merge.dfy): the `merge_*` functions of
  `scripts/seed_merged.py`, as methods of a class `MergedDb` whose tables
  are sequences of rows.
  - Each merge is proved equal to a functional `MergedTable` and an id map
    `MergeIdMap`.
  - Lemmas about those give the following: the destination is only
    extended; keys stay distinct; exactly the first source row of each new
    key is inserted, with consecutive ids; and the id map resolves skipped
    rows to the row that holds their key.

Integers are unbounded throughout. The source is Python, whose integers are
unbounded too. Python's floored `%` agrees with Dafny's `%` wherever the
model uses it, because every divisor is positive.

## Model

| member | source | states |
|---|---|---|
| Text.PyInt | proj2/llm_toolkit.py:190 | `int()` of a string: surrounding whitespace stripped, then one optional sign and decimal digits grouped by single underscores give their value, negated after '-'; anything else is the ValueError (None) |
| Text.Strip | proj2/llm_toolkit.py:180 | `str.strip()`: the leading whitespace is removed, then the trailing whitespace |
| Text.Join | proj2/Flask_app.py:143 | `sep.join(parts)`: the parts in order with the separator between consecutive ones, "" for no parts |
| Text.FindFrom | proj2/tests/unit/test_menu_generation_helpers.py:111-146 | `s.find(pat, i)`: the first position k >= i where pat occurs, scanning forward, None past the end; an answer always leaves room for the pattern |
| Text.NatToStringRoundTrip | proj2/Flask_app.py:74-78 | the decimal digits of n read back as a number give n (the id group `[0-9]+` read by `int`) |
| Text.NatToString | proj2/llm_toolkit.py:204 | the rendering of a natural number is a non-empty digit string without a leading zero |
| Text.PyIntOfIntToString | proj2/Flask_app.py:1177-1182 | `int(str(n)) == n` for every integer n, negative ones included |
| Text.PyIntOfNatString | proj2/llm_toolkit.py:190 | `int()` of the decimal rendering of a natural number is that number |
| Text.PyIntOfNegString | proj2/llm_toolkit.py:190 | `int()` of "-" followed by the rendering of m is -m |
| Text.PyIntRejectsForeignChar | proj2/llm_toolkit.py:189-193 | a character that is neither whitespace, a digit, a sign nor `_` makes `int()` fail |
| Text.PyIntStrippedShape | proj2/llm_toolkit.py:190 | a string `int()` accepts ends in a digit and consists of sign, digit and underscore characters; a negative result has a leading '-' |
| Text.StripShape | proj2/llm_toolkit.py:180 | `strip()` removes exactly the leading and trailing whitespace: the result is a slice of the input, everything cut is whitespace, and the result neither starts nor ends with whitespace |
| Text.StripNoSpaceEnds | proj2/llm_toolkit.py:180 | a string that neither starts nor ends with whitespace is its own strip |
| Text.Split | proj2/llm_toolkit.py:180 | `split(sep)` yields at least one piece and no piece contains the separator |
| Text.SplitJoin | proj2/llm_toolkit.py:180 | joining the pieces of `split(sep)` with the separator gives back the input |
| Text.SplitHead | proj2/llm_toolkit.py:187-190 | the first piece of `split(',')` is the text before the first comma |
| Text.SplitNoSep | proj2/llm_toolkit.py:187 | a string without the separator splits into itself alone |
| Text.FindFromSpec | proj2/tests/unit/test_menu_generation_helpers.py:111-146 | `find` from i returns the first position at or after i where the pattern occurs, and none only when it occurs nowhere from i on |
| Text.LStripShape | proj2/Flask_app.py:74 | skipping leading whitespace (`\s*`) removes a prefix made only of whitespace |
| PlanFormat.MatchDate | proj2/Flask_app.py:74 | after `[` and `\s*`: ten characters of shape `\d{4}-\d{2}-\d{2}`, then `\s*`; what follows goes to the id stage; a match is well-formed and consumes input |
| PlanFormat.MatchItem | proj2/Flask_app.py:74 | a comma, `\s*`, the greedy run `[0-9]+` read as the id, then `\s*`; no digit means no match |
| PlanFormat.MatchClose | proj2/Flask_app.py:74 | `]` ends a triple without meal group, read as meal 3; otherwise a comma leads to the meal stage; anything else fails |
| PlanFormat.MatchMeal | proj2/Flask_app.py:74 | one of `[123]`, `\s*`, then `]`; the digit is the meal |
| PlanFormat.Render | proj2/Flask_app.py:64-66 | a triple written as `[YYYY-MM-DD,id,meal]`, starting with '[' |
| PlanFormat.Serialize | proj2/Flask_app.py:64-66 | a plan written as its rendered triples one after another, the format `parse_generated_menu` reads |
| PlanFormat.ParseGeneratedMenu | proj2/Flask_app.py:62-83 | None or "" gives the empty map; otherwise the keys are exactly the dates of the matched triples and each date's list holds its entries in source order, repeats kept |
| PlanFormat.GroupedStep | proj2/Flask_app.py:76-80 | `setdefault(d, []).append(e)` for the next triple keeps the map equal to the grouping of the triples read so far |
| PlanFormat.EntriesOnPresent | proj2/Flask_app.py:80 | a date that occurs in the stream has a non-empty list |
| PlanFormat.EntriesOnAbsent | proj2/Flask_app.py:80 | a date that does not occur has no entries |
| PlanFormat.DigitPrefix | proj2/Flask_app.py:74 | `[0-9]+` and `\d{n}` take the longest run of digits |
| PlanFormat.MatchBracket | proj2/Flask_app.py:74 | a match starts at '[' and yields a well-formed triple: a date of shape dddd-dd-dd, an id, and a meal in 1..3 |
| PlanFormat.FindAll | proj2/Flask_app.py:74 | every triple `findall` returns is well-formed |
| PlanFormat.MatchSpaced | proj2/Flask_app.py:74 | whitespace around every field of a triple is tolerated |
| PlanFormat.MatchLegacy | proj2/Flask_app.py:74-79 | a triple without a meal field is read with meal 3 |
| PlanFormat.BadMealSkipped | proj2/Flask_app.py:74 | a triple whose meal digit is not 1, 2 or 3 contributes nothing; scanning resumes after it |
| PlanFormat.BadMealNoMatch | proj2/Flask_app.py:74 | such a triple does not match at its '[' |
| PlanFormat.DateNotCalendarChecked | proj2/Flask_app.py:74 | "[2025-13-45,7,1]" is accepted: dates are not calendar-checked |
| PlanFormat.MatchRender | proj2/Flask_app.py:74 | a rendered well-formed triple matches at its start and yields itself, leaving the rest |
| PlanFormat.FindAllAppend | proj2/Flask_app.py:74-76 | `findall` of s+t is `findall(s)` followed by `findall(t)` when t starts with '[' |
| PlanFormat.PlanRoundTrip | proj2/Flask_app.py:74-80 | parsing the concatenation of well-formed rendered triples returns exactly those triples, in order |
| PlanFormat.AppendTripleEntries | proj2/Flask_app.py:76-80 | appending one triple to a plan appends its entry to its own date's list and leaves every other date unchanged |
| PlanFormat.NoOpenBracket | proj2/Flask_app.py:74 | text without '[' contributes no triple |
| CalendarView.PaletteOf | proj2/Flask_app.py:100-105 | the palette as a value: each given id, and no other, mapped to its hue seed |
| CalendarView.MealsOf | proj2/Flask_app.py:192-203 | in entry order, one meal per entry whose item is known, carrying the entry's meal, the item and its palette colour or "#7aa2f7"; entries of unknown items are skipped |
| CalendarView.IsoDate | proj2/Flask_app.py:189 | the day key `f"{year:04d}-{month:02d}-{d:02d}"` |
| CalendarView.DayCell | proj2/Flask_app.py:184-205 | day 0 is padding; any other day carries its number and the meals of that date's entries sorted by meal |
| CalendarView.HueOf | proj2/Flask_app.py:102-103 | the hue seed lies in 0..359 |
| CalendarView.HuePeriodic | proj2/Flask_app.py:102-103 | the hue seed repeats with period 233280 in the item id |
| CalendarView.PaletteFor | proj2/Flask_app.py:86-105 | the palette has exactly the given ids as keys, each mapped to its hue seed |
| CalendarView.InsertByMeal | proj2/Flask_app.py:190 | inserting an entry adds exactly that entry to the multiset |
| CalendarView.SortByMeal | proj2/Flask_app.py:190 | `sorted(..., key=meal)` is a permutation of the day's entries |
| CalendarView.SortByMealSorted | proj2/Flask_app.py:175-177 | the sorted entries are in non-decreasing meal order |
| CalendarView.InsertSorted | proj2/Flask_app.py:190 | inserting into a meal-sorted list keeps it sorted |
| CalendarView.SortByMealStable | proj2/Flask_app.py:190 | the sort is stable: the entries of each meal keep their relative order |
| CalendarView.InsertKeepsOrder | proj2/Flask_app.py:190 | inserting one entry puts it ahead of the equal-meal entries of the already sorted list, which is what keeps the sort stable when the list is built from the back |
| CalendarView.CollectMeals | proj2/Flask_app.py:192-203 | the loop over a day's entries builds the meals of the known items, with their colours |
| CalendarView.MealItemsOfMeals | proj2/Flask_app.py:193-196 | the items shown for meal m are exactly the known items among the entries with meal m, in order; unknown ids are dropped |
| CalendarView.MealColours | proj2/Flask_app.py:179-201 | with the palette built from the item map's keys and items filed under their own id, every meal shows its item's hue, never the fallback "#7aa2f7" |
| CalendarView.MealsOfSorted | proj2/Flask_app.py:190-203 | dropping unknown items keeps the meal order |
| CalendarView.MealsOfBound | proj2/Flask_app.py:199 | every meal shown carries the meal number of its entry |
| CalendarView.DayCellMeals | proj2/Flask_app.py:184-205 | a slot is padding (`{"day": 0}`) exactly when its day is 0; a day cell carries its day, meals in meal order, and for each meal m the known items of that date's entries with meal m |
| CalendarView.SlotCell | proj2/Flask_app.py:185-205 | one slot of the week grid becomes its day cell |
| CalendarView.WeekCells | proj2/Flask_app.py:184-205 | one week becomes its cells, in order |
| CalendarView.BuildCalendarCells | proj2/Flask_app.py:163-207 | one cell per slot of the grid, in reading order, each the day cell of its slot with the palette of the known items |
| CalendarView.CellsOfAppend | proj2/Flask_app.py:183-205 | the cells of consecutive runs of slots concatenate |
| CalendarView.IsoDateShape | proj2/Flask_app.py:189 | the key `f"{year:04d}-{month:02d}-{d:02d}"` has exactly the date shape the plan parser accepts |
| CalendarView.PadIntDigits | proj2/Flask_app.py:189 | zero-padding to width w gives w digits when the number fits |
| CalendarView.ZeroFillShape | proj2/Flask_app.py:189 | zero-padding keeps the digits as a suffix and puts only '0' before them |
| OrderWorkflow.Lookup | proj2/Flask_app.py:583-585 | the row of the order id, or None when the table has no such order |
| OrderWorkflow.Decide | proj2/Flask_app.py:574-750 | the guards in source order: a missing order is 404 in accept and 403 in the other handlers, another restaurant's order 403, a status the step does not start from 400 with the handler's message, otherwise 200 with the step's target status |
| OrderWorkflow.Apply | proj2/Flask_app.py:599-602 | on a 200 answer the addressed order's status becomes the step's target; on any other answer the table is unchanged |
| OrderWorkflow.OrderBoard.AcceptOrder | proj2/Flask_app.py:574-612 | the outcome and the new table are `Decide` and `Apply` for accept: 404 for a missing order, 403 for another restaurant's order, 400 unless Ordered, else Ordered to Accepted |
| OrderWorkflow.OrderBoard.RejectOrder | proj2/Flask_app.py:615-645 | the same for reject: 403 for a missing order or another restaurant's order, 400 unless Ordered, Accepted or Preparing, else Cancelled |
| OrderWorkflow.OrderBoard.PrepareOrder | proj2/Flask_app.py:650-680 | the same for prepare: only Accepted to Preparing |
| OrderWorkflow.OrderBoard.ReadyOrder | proj2/Flask_app.py:685-715 | the same for ready: only Preparing to Ready |
| OrderWorkflow.OrderBoard.DeliverOrder | proj2/Flask_app.py:720-750 | the same for deliver: only Ready to Delivered |
| OrderWorkflow.ApplyFrame | proj2/Flask_app.py:604-606 | a handler changes no other order, adds or removes no order, and never changes the owner |
| OrderWorkflow.RefusalChangesNothing | proj2/Flask_app.py:587-602 | a refused request leaves the table as it was, and an accepted one addressed an existing order of the calling restaurant |
| OrderWorkflow.GuardCodes | proj2/Flask_app.py:587-591 | a missing order gives 404 in accept and 403 in the other four handlers; another restaurant's order gives 403; a wrong source status gives 400 with the handler's message |
| OrderWorkflow.StepIsEdge | proj2/Flask_app.py:593-606 | every status change a handler makes is an edge of the workflow graph |
| OrderWorkflow.EdgeHasHandler | proj2/Flask_app.py:572-750 | every edge of the workflow graph is the step of some handler |
| OrderWorkflow.Terminal | proj2/Flask_app.py:735-743 | Delivered and Cancelled are terminal: every handler answers 400 and changes nothing |
| OrderWorkflow.ApplyKeepsCanonical | proj2/Flask_app.py:604-606 | if every status is one of the six, it stays so |
| OrderWorkflow.StepRaisesRank | proj2/Flask_app.py:572-750 | a handler either leaves the status or moves it strictly forward |
| OrderWorkflow.RunMonotone | proj2/Flask_app.py:572-750 | along any sequence of requests an order keeps its owner, its status only advances, and it changes at most four times |
| OrderWorkflow.StatusCounts | proj2/Flask_app.py:466-477 | the badge counts have exactly the six statuses as keys, each mapped to the number of orders with that status; other statuses are not counted |
| OrderWorkflow.GroupByStatus | proj2/Flask_app.py:530-565 | the six groups are always present; "Other" is present only when non-empty; each group holds the orders with that status, or with none of the six, in query order |
| OrderWorkflow.OtherNonEmpty | proj2/Flask_app.py:555-558 | "Other" is non-empty exactly when some order has a status outside the six |
| OrderWorkflow.GroupsPartition | proj2/Flask_app.py:530-565 | the seven groups together hold every order exactly once |
| WebRules.SessionAllowed | proj2/Flask_app.py:359-361 | restaurant mode is on and the session's `rtr_id` is present and not 0 |
| WebRules.GuardAdmitsOnlyRestaurants | proj2/Flask_app.py:359-361 | a guarded route runs only in restaurant mode with a present, non-zero restaurant id |
| WebRules.KeptParts | proj2/Flask_app.py:134-143 | at most one kept part per address field |
| WebRules.Addr | proj2/Flask_app.py:134-143 | `_addr` joins, with ", ", the fields that are present and not blank after stripping, each stripped |
| WebRules.KeptPartsClean | proj2/Flask_app.py:137-142 | every kept part is non-empty and already stripped, and every field that is non-blank after stripping is kept |
| WebRules.AddrEmpty | proj2/Flask_app.py:143 | the address is "" exactly when no part is kept |
| WebRules.StripIdempotent | proj2/Flask_app.py:140 | stripping twice is stripping once |
| WebRules.FirstIndex | proj2/Flask_app.py:776 | the position found is the first occurrence of the character |
| WebRules.EmailOk | proj2/Flask_app.py:776 | the email has a first '@' with text before it, no second '@', and a '.' after the '@' with at least one character on each side |
| WebRules.EmailOkIsPattern | proj2/Flask_app.py:776 | the scan used for the email check accepts exactly the strings of `^[^@]+@[^@]+\.[^@]+$` |
| WebRules.Lower | proj2/Flask_app.py:766 | lower-casing keeps the length and the positions of '@' and '.' |
| WebRules.DigitsOnly | proj2/Flask_app.py:783 | `re.sub(r"\D+", "", phone)` leaves only digits and never lengthens the string |
| WebRules.DigitsOnlyOfDigits | proj2/Flask_app.py:783 | a string of digits is unchanged |
| WebRules.DigitsOnlySkips | proj2/Flask_app.py:783 | a non-digit character is removed wherever it stands |
| WebRules.Validate | proj2/Flask_app.py:773-790 | the checks of `register` in source order, the first that fails giving its page message: names, email, password match, password length, phone digits, then an already registered email; otherwise the fields to store |
| WebRules.Register | proj2/Flask_app.py:763-790 | the form fields as the route reads them: names, email and phone stripped, the email lower-cased, the passwords as typed, a missing field as ""; then the checks |
| WebRules.ValidateAccepts | proj2/Flask_app.py:773-790 | registration is accepted exactly when both names are non-empty, the email matches the pattern, the passwords agree and have at least 6 characters, the phone has at least 7 digits, and the email is not registered; the fields are then stored unchanged |
| WebRules.RegisterAccepts | proj2/Flask_app.py:763-790 | the same conditions on the raw form, after names, email and phone are stripped and the email lower-cased; a new user's email is unregistered and well-formed |
| WebRules.ChangePassword | proj2/Flask_app.py:1041-1071 | the three fields stripped, then missing_current, too_short, mismatch, same_as_current in that order, a logout when the user row is gone, incorrect_current, otherwise the new password |
| WebRules.ChangePasswordRules | proj2/Flask_app.py:1041-1071 | a password is replaced only by a stripped new one of at least 6 characters, typed twice and different from the current one, after the current one matched; a too-short new password is reported before a mismatch |
| WebRules.Rating | proj2/Flask_app.py:1169-1182 | an absent or empty rating is "Please select a rating"; one `int()` refuses or outside 1..5 is "Invalid rating value"; otherwise its value |
| WebRules.RatingRange | proj2/Flask_app.py:1169-1182 | an accepted rating is 1..5 and is what `int()` reads from the field; each of 1..5 written in decimal is accepted as itself |
| WebRules.RatingRejectsForeign | proj2/Flask_app.py:1177-1182 | a rating containing a character `int()` refuses is an invalid rating value |
| WebRules.PageCount | proj2/Flask_app.py:1853 | the number of 10-row pages, the ceiling of total/10 |
| WebRules.PageCountBounds | proj2/Flask_app.py:1853 | `ceil(total/10)` pages just cover the rows |
| WebRules.DbViewPage | proj2/Flask_app.py:1841-1865 | the page argument through `int()`, 1 when absent or not an integer, raised to 1, lowered to max(ceil(total/10), 1); offset (page-1)*10; start 0 for an empty table, else offset+1; end min(offset+10, total) |
| WebRules.DbViewPageBounds | proj2/Flask_app.py:1841-1865 | the page is clamped to 1..pages; start <= end <= total; at most 10 rows; start is 0 exactly for an empty table and otherwise offset+1, with a non-empty page |
| WebRules.DbViewKeepsValidPage | proj2/Flask_app.py:1841-1855 | a page number within range is kept, with offset (page-1)*10 |
| WebRules.ReviewsPage | proj2/Flask_app.py:1267 | `max(1, int(page))` with 1 for an absent argument; a value `int()` refuses fails the request (None) |
| WebRules.ReviewPages | proj2/Flask_app.py:1350 | `ceil(total/10)` when there are reviews, else 1 |
| WebRules.ReviewsPaging | proj2/Flask_app.py:1267-1273 | the reviews page is at least 1, the page count is at least 1 and just covers the reviews, and a page past the last shows nothing (it is not clamped) |
| WebRules.RatingFilter | proj2/Flask_app.py:1278-1285 | the star filter is applied only for an integer 1..5 |
| Oracle.LineId | proj2/llm_toolkit.py:187-190 | `int()` of the text before the first comma of a line, None when it raises |
| Oracle.FallbackId | proj2/llm_toolkit.py:180-204 | the context stripped and split into lines; with only a header, 1; otherwise the first id among the lines after the header, 1 when none parses |
| Oracle.Wrap | proj2/llm_toolkit.py:204 | every fallback answer is the role prefix, the decimal id, then `<\|end_of_text\|>` |
| Oracle.Lines | proj2/llm_toolkit.py:180 | the context always has at least one line after `strip().split('\n')` |
| Oracle.ParsedIds | proj2/llm_toolkit.py:185-193 | at most one id per data line |
| Oracle.ParsedIdsAppend | proj2/llm_toolkit.py:186-193 | the ids of two blocks of lines are the ids of the first followed by those of the second |
| Oracle.ParsedIdsFirst | proj2/llm_toolkit.py:198-200 | the first id collected is that of the earliest line that parses |
| Oracle.ParsedIdsNone | proj2/llm_toolkit.py:192-196 | lines none of which parses yield no id |
| Oracle.FallbackChoice | proj2/llm_toolkit.py:180-204 | header only or empty gives 1; no data line that parses gives 1; otherwise the id of the earliest data line that parses; the header never counts |
| Oracle.LaterLinesIgnored | proj2/llm_toolkit.py:198-200 | lines after one that parses never change the choice |
| Oracle.LLM.constructor | proj2/llm_toolkit.py:60-129 | `tokens` is stored unchanged; without transformers, or when loading raises, fallback mode is set, and only then; a model is held when transformers is available and loading got as far as binding it, even if a later step raised |
| Oracle.LLM.ParseDataLines | proj2/llm_toolkit.py:185-193 | the loop collects, in order, the integer before the first comma of every line after the header that has one |
| Oracle.LLM.GenerateFallback | proj2/llm_toolkit.py:167-204 | the answer is the wrapped fallback id of the context, whatever the prompt |
| Oracle.LLM.Generate | proj2/llm_toolkit.py:131-165 | in fallback mode, without a model, or when generation raises, the answer is the fallback; otherwise it is the model's text; it never fails |
| Oracle.FallbackOnly | proj2/llm_toolkit.py:74-81 | a wrapper built without transformers answers from the fallback, whatever the model would say |
| Oracle.RaisedAfterLoadFallsBack | proj2/llm_toolkit.py:104-143 | a load that raised after the model was bound still answers every request from the fallback, since `generate` checks the fallback flag first |
| MenuHelpers.MealAndOrderTime | proj2/tests/unit/test_menu_generation_helpers.py:24-54 | meal 1 is breakfast at 1000, 2 lunch at 1400, 3 dinner at 2000; any other number is the ValueError (None) |
| MenuHelpers.MealSlots | proj2/tests/unit/test_menu_generation_helpers.py:24-54 | meals 1, 2, 3 are breakfast at 1000, lunch at 1400 and dinner at 2000, later meals later in the day; every other number is an error; every meal a parsed plan holds has a slot |
| MenuHelpers.DaysInMonth | proj2/tests/unit/test_menu_generation_helpers.py:83-86 | a month has 28 to 31 days |
| MenuHelpers.Weekday | proj2/tests/unit/test_menu_generation_helpers.py:60-76 | the weekday index is 0..6 |
| MenuHelpers.NextDay | proj2/tests/unit/test_menu_generation_helpers.py:78-86 | the next day of a valid date is a valid date |
| MenuHelpers.NextDayIsNext | proj2/tests/unit/test_menu_generation_helpers.py:60-86 | the next day is the date whose day number is one more, with the following weekday; only 9999-12-31 has none |
| MenuHelpers.ParseIsoDate | proj2/tests/unit/test_menu_generation_helpers.py:60-97 | a string of shape YYYY-MM-DD gives its year, month and day fields; any other shape is refused |
| MenuHelpers.WeekdayAndIncrement | proj2/tests/unit/test_menu_generation_helpers.py:57-105 | a parsed valid date gives the next calendar day as YYYY-MM-DD and the given day's weekday abbreviation; a wrong shape or an impossible date is the ValueError |
| MenuHelpers.ParseIsoDateRoundTrip | proj2/tests/unit/test_menu_generation_helpers.py:60-64 | a date written as YYYY-MM-DD reads back as itself |
| MenuHelpers.PadIntValue | proj2/tests/unit/test_menu_generation_helpers.py:60-64 | a zero-padded field reads back as its number |
| MenuHelpers.WeekdayAndIncrementSpec | proj2/tests/unit/test_menu_generation_helpers.py:57-86 | for every valid date the answer is the next calendar day as YYYY-MM-DD and the weekday abbreviation of the given day |
| MenuHelpers.CalendarFacts | proj2/tests/unit/test_menu_generation_helpers.py:60-76 | 2025-11-20 is a Thursday, 2025-11-17 a Monday, 2025-11-23 a Sunday |
| MenuHelpers.CalendarRollover | proj2/tests/unit/test_menu_generation_helpers.py:72-105 | the next day rolls over weeks, years and the leap day; month 13 and 30 February are invalid |
| MenuHelpers.WrongFormatsRefused | proj2/tests/unit/test_menu_generation_helpers.py:88-97 | "11-20-2025" and "2025/11/20" are refused |
| MenuHelpers.Payload | proj2/tests/unit/test_menu_generation_helpers.py:111-146 | the text after the first start marker up to the first end marker after it; None when either marker is missing |
| MenuHelpers.FormatLlmOutput | proj2/tests/unit/test_menu_generation_helpers.py:111-146 | the payload read with `int()`; -1 when a marker is missing or the payload is not an integer |
| MenuHelpers.PayloadOfWrapped | proj2/tests/unit/test_menu_generation_helpers.py:111-127 | the text between the first start marker and the first end marker after it is extracted exactly |
| MenuHelpers.FormatReadsWrapped | proj2/tests/unit/test_menu_generation_coverage.py:65-75 | `format_llm_output` reads back the id of any wrapped answer, whatever text precedes it (without '<') or follows it |
| MenuHelpers.FallbackReadsBack | proj2/tests/unit/test_menu_generation_helpers.py:111-115 | the fallback's answer always reads back as the id it chose |
| MenuHelpers.MalformedAnswers | proj2/tests/unit/test_menu_generation_helpers.py:129-139 | an answer without markers, or without the end marker, gives the error value -1 |
| MenuHelpers.EmptyPayloadRejected | proj2/tests/unit/test_menu_generation_helpers.py:141-145 | an empty payload gives the error value |
| MenuHelpers.WordPayloadRejected | proj2/tests/unit/test_menu_generation_coverage.py:77-87 | a non-numeric payload gives the error value |
| MenuHelpers.FirstOccurrence | proj2/tests/unit/test_menu_generation_helpers.py:111-127 | a pattern whose first character does not occur earlier is found where it starts |
| MenuHelpers.LimitScope | proj2/tests/unit/test_menu_generation_helpers.py:151-179 | the sample has min(n, max) rows, is all rows when n <= max, and draws only rows of the input |
| MenuHelpers.FilterAllergens | proj2/tests/unit/test_menu_generation_helpers.py:185-230 | filtering never adds rows |
| MenuHelpers.FilterAllergensExact | proj2/tests/unit/test_menu_generation_helpers.py:185-230 | a row is kept exactly when its allergen field names none of the excluded allergens; rows without allergens are always kept |
| MenuHelpers.NothingExcluded | proj2/tests/unit/test_menu_generation_helpers.py:205-212 | an empty exclusion string keeps every row |
| MenuHelpers.Tokens | proj2/tests/unit/test_menu_generation_helpers.py:195-203 | the excluded allergens are non-empty names |
| MenuHelpers.InSomePair | proj2/tests/unit/test_menu_generation_helpers.py:236-297 | the hours list read two at a time: the time lies within the first pair, bounds included, or within a later one |
| MenuHelpers.OpenAt | proj2/tests/unit/test_menu_generation_helpers.py:236-297 | the list has even length and the time lies in some pair; an odd list is closed |
| MenuHelpers.HoursOn | proj2/tests/unit/test_menu_generation_helpers.py:236-242 | the hours listed for the weekday; a weekday without an entry has none, so it is closed |
| MenuHelpers.InSomePairIff | proj2/tests/unit/test_menu_generation_helpers.py:236-297 | the scan of the hours list accepts exactly a time within some [open, close] pair, bounds included |
| MenuHelpers.OpenAtIff | proj2/tests/unit/test_menu_generation_helpers.py:236-297 | a restaurant is open exactly when its list has even length and the time lies in some pair |
| MenuHelpers.FilterClosed | proj2/tests/unit/test_menu_generation_helpers.py:236-310 | filtering never adds restaurants |
| MenuHelpers.FilterClosedExact | proj2/tests/unit/test_menu_generation_helpers.py:236-310 | a restaurant is kept exactly when it is open on that weekday at that time |
| MenuHelpers.OpeningHoursFacts | proj2/tests/unit/test_menu_generation_helpers.py:236-297 | inside and on both bounds is open, after closing is closed, the second period counts, the gap is closed, an odd list is closed |
| StatusNormalize.Normalize | proj2/standardize_order_statuses.py:19-58 | a status that is a key of `status_mappings` becomes its target; any other is kept |
| StatusNormalize.TableSettled | proj2/standardize_order_statuses.py:19-37 | the dict order visits every key and only keys, every target is one of the six statuses, and each of the six maps to itself |
| StatusNormalize.TargetsCanonical | proj2/standardize_order_statuses.py:19-37 | every target is one of the six statuses, and each of the six maps to itself |
| StatusNormalize.NormalizeShape | proj2/standardize_order_statuses.py:19-58 | a key becomes one of the six statuses, any other status is left unchanged, and normalising twice is normalising once |
| StatusNormalize.LegacySpellings | proj2/standardize_order_statuses.py:22-30 | completed/Completed become Delivered, confirmed/Confirmed Accepted, pending Ordered; "Pending" is not a key and stays |
| StatusNormalize.CanonicalFixed | proj2/standardize_order_statuses.py:27-36 | the six statuses are left unchanged |
| StatusNormalize.FoldIsLookup | proj2/standardize_order_statuses.py:53-58 | applying the per-key updates one after another to a value equals looking it up once |
| StatusNormalize.UpdateWhere | proj2/standardize_order_statuses.py:55-59 | `UPDATE ... WHERE status = old` rewrites exactly the rows holding old, and its row count is their number |
| StatusNormalize.UpdateAddsCount | proj2/standardize_order_statuses.py:59-62 | each update adds its row count to the number of rows that differ from the original |
| StatusNormalize.ApplyEntry | proj2/standardize_order_statuses.py:53-62 | one entry of the loop, skipped when old = new, advances the fold by that entry and adds its rows to the count |
| StatusNormalize.ApplyInOrder | proj2/standardize_order_statuses.py:52-62 | the whole loop maps every row once through the table and `changed_count` is the number of rows changed |
| StatusNormalize.Standardize | proj2/standardize_order_statuses.py:19-62 | the script leaves every status normalised and counts exactly the rows it changed |
| SeedMerge.MergedTable | scripts/seed_merged.py:48-56 | the incoming rows in order: one whose key is already present, in the destination or from an earlier insert, is skipped; any other is appended with the next rowid |
| SeedMerge.MergeIdMap | scripts/seed_merged.py:78-95 | each inserted row's source id maps to its new rowid; with resolution a skipped row's source id maps to the first row holding its key; a later source row with the same id overwrites an earlier one |
| SeedMerge.LookupMap | scripts/seed_merged.py:284-291 | each source key looked up in a fixed table, its source id mapped to the first row found; a key not found records nothing |
| SeedMerge.Remap | scripts/seed_merged.py:118 | `id_map.get(id, id)`: the mapped id, or the id itself when unmapped |
| SeedMerge.RemapCols | scripts/seed_merged.py:118-237 | a row's restaurant and user ids go through their maps, every other column is copied |
| SeedMerge.FirstWith | scripts/seed_merged.py:92-95 | the lookup by key finds a row exactly when some row has that key |
| SeedMerge.MergeRows | scripts/seed_merged.py:78-96 | the loop's table is `MergedTable`, inserted + skipped is the number of source rows, the table grows by the inserted rows, and the id map is `MergeIdMap` |
| SeedMerge.MergedKeys | scripts/seed_merged.py:49-56 | after a merge the keys present are those of the destination plus those of the source |
| SeedMerge.MergedExtends | scripts/seed_merged.py:50-54 | a merge only inserts: the old rows are a prefix, unchanged, and new rows get consecutive ids after the old maximum |
| SeedMerge.MergedDistinct | scripts/seed_merged.py:49-56 | pairwise distinct destination keys stay distinct |
| SeedMerge.PickedIff | scripts/seed_merged.py:48-58 | a source row is inserted exactly when its key is neither in the destination nor on an earlier source row |
| SeedMerge.MergedPicked | scripts/seed_merged.py:48-58 | the inserted rows are exactly the picked source rows, in source order, with ids max+1, max+2, ... |
| SeedMerge.FirstWithMerged | scripts/seed_merged.py:92-95 | a key already in the destination is still found at its old row after the merge |
| SeedMerge.ResolvedRow | scripts/seed_merged.py:86-95 | with skipped rows resolved, every source id maps to a row of the merged table holding its key |
| SeedMerge.ResolvedIsLookup | scripts/seed_merged.py:86-95 | that id map equals looking up each source key in the merged table |
| SeedMerge.InsertOnlyMap | scripts/seed_merged.py:180-185 | without resolution, the id map holds exactly the inserted rows, each mapped to its new id |
| SeedMerge.KeysComprehension | scripts/seed_merged.py:43 | the key set of a table is the set of its rows' keys |
| SeedMerge.MergedDb.MergeUsers | scripts/seed_merged.py:32-61 | users are de-duplicated by email; inserted + skipped is the number of source users |
| SeedMerge.MergedDb.MergeRestaurants | scripts/seed_merged.py:63-100 | restaurants are de-duplicated by email; the id map sends each source id to its new row or to the row with its email |
| SeedMerge.MergedDb.MergeMenuItems | scripts/seed_merged.py:102-139 | items are de-duplicated on (remapped rtr_id, name), an unmapped rtr_id kept as is; the id map resolves skipped items |
| SeedMerge.MergedDb.MergeOrders | scripts/seed_merged.py:141-189 | when the source or the destination has no order table, nothing changes and the map is empty; otherwise orders are de-duplicated on (usr_id, rtr_id) after remapping, and only inserted orders enter the map |
| SeedMerge.MergedDb.MergeReviews | scripts/seed_merged.py:191-220 | reviews are de-duplicated on remapped (usr_id, rtr_id) |
| SeedMerge.MergedDb.MergeAnalytics | scripts/seed_merged.py:222-251 | analytics rows are de-duplicated on (remapped rtr_id, date) |
| SeedMerge.MergedDb.ResolveUserIds | scripts/seed_merged.py:284-291 | each backup user id maps to the first destination user with its email |
| SeedMerge.MergedDb.MergeCatalog | scripts/seed_merged.py:277-279 | users, then restaurants, then menu items with the restaurant map |
| SeedMerge.MergedDb.MergeAll | scripts/seed_merged.py:277-298 | the merges run in the script's order, leave the orders untouched, and merge reviews and analytics with the maps built before them |

## Left out

- Flask routing, sessions, templates, redirects, JSON responses and the
  cache headers of `restaurant_required`: only the guard predicate is
  modelled.
- All sqlite access. Tables are sequences or maps, and a row's id is given
  as an input.
  - A new row gets the id max+1, which is sqlite's rowid rule without
    AUTOINCREMENT.
  - A lookup returns the first matching row in table order.
  - Commits and connection handling are not modelled.
- Printing, warnings and timing.
- Money code: `_money`, `_cents_to_dollars` and the charge, tax and tip
  arithmetic of `order()`.
- The HSL to hex conversion through `colorsys`: a colour is represented by
  its hue seed.
- `calendar.Calendar(...).monthdayscalendar`: the week grid is an input of
  `BuildCalendarCells`.
- The model-backed path of `LLM`: imports, device selection, model loading,
  tokenising, generation and decoding. The constructor takes as parameters
  whether transformers is available and how loading ended. `Generate`
  takes the model's text, or None when generation raised.
- `proj2/menu_generation.py` is not part of this model. Its helpers are
  defined from the test assertions alone, and `MenuGenerator.update_menu`,
  the planning driver, is left out.
- MenuHelpers.LimitScope: the random sample is an input, so only the size
  and membership of the result are modelled, not the sampling.
- MenuHelpers.FilterAllergens: the allergen field is split on commas and
  each name stripped, and a row is dropped when a name equals an excluded
  one. The implementation is not visible, so this is one reading that
  satisfies every assertion of the tests.
- MenuHelpers.HoursOn: the tests always list the weekday asked about. A
  weekday without an entry is read as having no hours, so the restaurant is
  closed; this is one reading of the implementation, which is not visible.
- Text.PyInt: only ASCII digits are modelled. Python's `int()` also accepts
  other Unicode decimal digits.
- PlanFormat.MatchBracket: `\d` matches only ASCII digits here. Python's
  `\d` on a str also matches other Unicode digits.
- WebRules.Lower: lower-casing is modelled on ASCII letters only.
- WebRules.DigitsOnly: only ASCII digits are kept. Python's `\D` on a str
  treats every Unicode decimal digit as a digit, so a phone number written
  in other digits keeps its digits in the source and loses them here.
- WebRules.DigitsOnlySkips: a Unicode decimal digit other than ASCII counts
  as a separator here and is removed, while Python keeps it.
- WebRules.ValidateAccepts: the phone condition counts ASCII digits only,
  so a phone number in other Unicode digits is refused here and accepted by
  the source.
- WebRules.RegisterAccepts: the same ASCII-only phone digit count as
  ValidateAccepts.
- WebRules.PageCountBounds: `math.ceil(total / per_page)` on floats is
  modelled as exact integer ceiling division. The two agree for every
  count a table can hold.
- Password hashing: whether the current password matches is a parameter of
  `ChangePassword`.
- The PDF receipt, the analytics snapshots and the e2e and integration
  tests' HTML checks.
- The other scripts of the repository: random data seeding, plain copies,
  migrations, inspection and password resets.
- The file handling of `main` in `scripts/seed_merged.py`: removing and
  copying databases and opening connections.
  - `main` calls `merge_reviews` although its next line prints that the
    reviews merge was skipped.
  - The model follows the code: `MergeAll` merges reviews and leaves orders
    untouched, because the call to `merge_orders` is commented out.
- SeedMerge.MergedDb.MergeUsers: like `merge_users`, it builds no id map.
  The user id map is `ResolveUserIds`, which `main` computes separately.
