# Pickleball standings dashboard and feature-request action, modelled in Dafny

This project models the two pieces of logic in the pickleball ratings web
application:

- **The standings dashboard** (`web/src/app/page.tsx`). The component holds
  two leaderboards (singles and doubles), the active tab, the search text and
  a sort specification `{key, direction}`. A click on a column header toggles
  the sort; the visible rows are the active leaderboard, copied, narrowed to
  the players whose lowercased name includes the lowercased search text, and
  sorted in place with a three-way comparator on the chosen column, inverted
  for descending order. A small indicator beside each header shows which
  column is sorted and in which direction.
- **The feature-request server action** (`web/src/app/actions.ts`). A chain
  of guards: a filled-in hidden honeypot field ends the request with a silent
  success; a missing, empty or over-long name, or details outside 10 to 1000
  characters, ends it with an error message; otherwise the trimmed name and
  details are inserted into the store, and a store failure becomes a generic
  error.

Files:

- `wrappers.dfy` — `Option`, for form fields and query results that may be absent.
- `js_strings.dfy` — module `JsStrings`: the JavaScript string operations used
  (`<` between strings, ASCII `toLowerCase`, `includes`, `trim`) and their laws.
- `standings.dfy` — module `Standings`: the ranking row, sort keys and
  directions, the toggle rule, the sort indicator, the tab's collection, the
  name filter, the comparator, sortedness and the uniqueness of sorted
  arrangements.
- `array_sort.dfy` — module `ArraySort`: `Array.prototype.sort` with a
  comparator function, in place on an array.
- `dashboard.dfy` — module `DashboardState`: the `Dashboard` class whose
  fields are the component's state, its handlers and the view derivation.
- `feature_request.dfy` — module `FeatureRequest`: the guard chain as a pure
  decision, and the action's outcome given the store's answer.

Modelling choices:

- The sort column's value (`a[sortConfig.key]`) is a `Value`: a number for
  rank, rounds and rating (integers are widened to reals, as all JavaScript
  numbers are one type), text for the player name. Text is compared with
  `StrLess`, the lexicographic order on characters ordered by code point,
  which stands for the string `<` of the comparator.
- The host's sort algorithm is not fixed by the language, so `SortInPlace` is
  an insertion sort, generic in the element type and taking the comparator as
  a function, whose contract is what the page relies on: for a comparator that
  is total and transitive, the array is ordered by it and holds the same rows.
- The store's answer to the insert is a boolean parameter of `Submit`.
- The action checks the lengths of the raw fields and trims only the values
  it inserts; the model does the same (`BlankNameInsertedEmpty`).

## Model

| member | source | states |
|---|---|---|
| `DashboardState.Dashboard.constructor` | web/src/app/page.tsx:25-33 | The initial state: empty leaderboards, the doubles tab, empty search text, sorted by rank ascending. |
| `DashboardState.Dashboard.ReceiveRankings` | web/src/app/page.tsx:61-62 | Each leaderboard is replaced by the store's rows when the store returned some, and is otherwise left as it was; nothing else changes. |
| `DashboardState.Dashboard.SetTab` | web/src/app/page.tsx:163-180 | The active tab becomes the clicked one (the doubles or the singles button); every other field is unchanged. |
| `DashboardState.Dashboard.SetSearch` | web/src/app/page.tsx:195 | The search text becomes the typed text; every other field is unchanged. |
| `DashboardState.Dashboard.HandleSort` | web/src/app/page.tsx:73-78 | The sort key becomes the clicked column, the direction is descending exactly when the previous sort was that column ascending; every other field is unchanged. |
| `DashboardState.Dashboard.SortedAndFilteredData` | web/src/app/page.tsx:82-103 | The visible rows are a permutation of the active collection narrowed by the search text, ordered by the comparator; the component's state is not modified. |
| `DashboardState.SortTwiceReverses` | web/src/app/page.tsx:73-103 | Viewing, clicking the ascending sorted column once and viewing again gives the first view reversed when no two visible rows tie on that column. |
| `Standings.Toggle` | web/src/app/page.tsx:73-78 | The new sort key is the clicked column, and the direction is descending exactly when the old key was that column and the old direction ascending. |
| `Standings.ToggleTwiceRestores` | web/src/app/page.tsx:73-78 | Two clicks on the column already sorted on restore the original direction. |
| `Standings.ToggleNewColumn` | web/src/app/page.tsx:73-78 | A click on another column sorts it ascending, and a second click sorts it descending. |
| `Standings.SortIndicator` | web/src/app/page.tsx:105-108 | The neutral mark exactly when the column is not the sort key; otherwise up for ascending and down for descending. |
| `Standings.OneMarkedColumn` | web/src/app/page.tsx:105-108 | Of the four sortable headers, exactly one shows a direction mark, and it is the sort key. |
| `DashboardState.Dashboard.CurrentData` | web/src/app/page.tsx:80 | The rows of the doubles leaderboard on the doubles tab and of the singles leaderboard on the singles tab. |
| `Standings.PickCollection` | web/src/app/page.tsx:80 | The doubles leaderboard for the doubles tab, the singles leaderboard otherwise. |
| `Standings.Matches` | web/src/app/page.tsx:87-89 | A row can match only a query no longer than its name; `FilterSoundAndComplete` ties the filter to this test. |
| `Standings.KeepMatching` | web/src/app/page.tsx:87-89 | Each row occurs in the result as often as in the collection when its lowercased name includes the lowercased query, and not at all otherwise. |
| `Standings.Filter` | web/src/app/page.tsx:86-90 | An empty query keeps the collection unchanged; any other query keeps exactly the matching rows. |
| `Standings.FilterSoundAndComplete` | web/src/app/page.tsx:86-90 | Every kept row comes from the collection and matches; every matching row of the collection is kept, with its multiplicity. |
| `Standings.FilterNoMatch` | web/src/app/page.tsx:86-90 | A non-empty query that no name includes yields no rows. |
| `Standings.Field` | web/src/app/page.tsx:94-95 | The sort value of a row is text exactly for the player-name column. |
| `Standings.Less` | web/src/app/page.tsx:97-98 | Values compared as less are different and of the same kind (both numbers or both text). |
| `Standings.LessTrichotomy` | web/src/app/page.tsx:97-98 | Two values of one column are equal, or exactly one is less than the other. |
| `Standings.LessTransitive` | web/src/app/page.tsx:97-98 | The comparator's `<` on column values is transitive. |
| `Standings.Compare` | web/src/app/page.tsx:93-100 | The comparator returns -1, 0 or 1, and 0 exactly when the two rows tie on the sort column. |
| `Standings.CompareMeaning` | web/src/app/page.tsx:97-98 | `a` may precede `b` exactly when the column does not decrease from `a` to `b` (ascending) or does not increase (descending). |
| `Standings.CompareAntisymmetric` | web/src/app/page.tsx:97-99 | Swapping the two rows negates the comparator's answer. |
| `Standings.CompareDescIsSwappedAsc` | web/src/app/page.tsx:97-98 | The descending comparator is the ascending one with its arguments swapped. |
| `Standings.CompareTransitive` | web/src/app/page.tsx:93-100 | "May precede" is transitive, so the comparator is a consistent total preorder. |
| `Standings.Comparator` | web/src/app/page.tsx:93-100 | The function handed to the sort answers -1, 0 or 1, and 0 exactly when the two rows tie on the sort column. |
| `Standings.AdjacentOrderIsSorted` | web/src/app/page.tsx:93-100 | A sequence whose neighbouring rows are in comparator order is sorted pairwise. |
| `Standings.SortedIsOrderedByColumn` | web/src/app/page.tsx:93-100 | In a sorted view the column is non-decreasing row to row for ascending and non-increasing for descending. |
| `Standings.SortedFirstIsLeast` | web/src/app/page.tsx:93-100 | The first row of a sorted view may precede every row of it. |
| `Standings.SortedPermutationUnique` | web/src/app/page.tsx:93-100 | When no two distinct rows tie on the column, a collection has exactly one sorted arrangement. |
| `Standings.ReverseSameRows` | web/src/app/page.tsx:93-100 | Reversing a view keeps the same rows. |
| `Standings.DescIsReverseOfAsc` | web/src/app/page.tsx:93-99 | With distinct column values, the descending view is the ascending view reversed. |
| `Standings.AmyPrecedesZed` | web/src/app/page.tsx:93-100 | In the two-row example, Amy before Zed is sorted under each of the three sorts, and the rows differ in each sorted column. |
| `Standings.AmyBeforeZed` | web/src/app/page.tsx:93-100 | Sorting two rows by rank ascending, by name ascending or by rating descending puts the better-ranked, alphabetically first, higher-rated player first. |
| `ArraySort.SortInPlace` | web/src/app/page.tsx:93-100 | For a total, transitive comparator, the array ends with every pair in comparator order and holds the same elements as before. |
| `ArraySort.InsertIntoPrefix` | web/src/app/page.tsx:93-100 | Moving the next element down into a sorted prefix leaves a sorted prefix one longer and the same elements. |
| `ArraySort.SinkStep` | web/src/app/page.tsx:93-100 | Exchanging the sinking element with a left neighbour that must follow it keeps the insertion state. |
| `ArraySort.SinkDone` | web/src/app/page.tsx:93-100 | Once the left neighbour may precede the sinking element, the whole prefix is sorted. |
| `Standings.ComparatorConsistent` | web/src/app/page.tsx:93-100 | The page's comparator is total and transitive, as the array sort requires. |
| `JsStrings.StrLess` | web/src/app/page.tsx:97-98 | No string is less than an equal one; `StrLessIsLexLess` shows it is lexicographic order. |
| `JsStrings.StrLessIsLexLess` | web/src/app/page.tsx:97 | String `<` is the lexicographic order: a proper prefix, or a smaller character at the first difference. |
| `JsStrings.StrLessIrreflexive` | web/src/app/page.tsx:97 | No name is less than itself. |
| `JsStrings.StrLessAsymmetric` | web/src/app/page.tsx:97-98 | Two names are never each less than the other. |
| `JsStrings.StrLessTransitive` | web/src/app/page.tsx:97 | String `<` is transitive. |
| `JsStrings.StrLessTotal` | web/src/app/page.tsx:97-98 | Two different names are ordered one way or the other. |
| `JsStrings.LowerChar` | web/src/app/page.tsx:88 | A capital ASCII letter becomes its small letter, any other character is kept, and the result is never a capital. |
| `JsStrings.Lower` | web/src/app/page.tsx:88 | Lowercasing keeps the length and lowers each character. |
| `JsStrings.LowerIdempotent` | web/src/app/page.tsx:88 | Lowercasing twice is lowercasing once, and leaves no capital letter. |
| `JsStrings.Contains` | web/src/app/page.tsx:88 | A string includes only substrings no longer than itself; `ContainsAt` gives its meaning. |
| `JsStrings.ContainsAt` | web/src/app/page.tsx:88 | `includes` holds exactly when the query occurs at some index of the name. |
| `JsStrings.ContainsEmpty` | web/src/app/page.tsx:88 | Every name includes the empty string. |
| `JsStrings.SkipLeading` | web/src/app/actions.ts:35-36 | The index reached holds no white space (or is the end), and everything skipped is white space. |
| `JsStrings.SkipTrailing` | web/src/app/actions.ts:35-36 | The end reached follows a character that is not white space (or is the lower bound), and everything skipped is white space. |
| `JsStrings.Trim` | web/src/app/actions.ts:35-36 | The trimmed string is no longer than the input and has no white space at either end; `TrimIsCore` shows it is a slice cut only at white space. |
| `JsStrings.TrimIsCore` | web/src/app/actions.ts:35-36 | Trimming keeps a slice of the input with only white space cut on either side and none left at either end. |
| `JsStrings.TrimKeepsClean` | web/src/app/actions.ts:35-36 | A string without white space at either end is its own trim. |
| `JsStrings.TrimIdempotent` | web/src/app/actions.ts:35-36 | Trimming twice is trimming once. |
| `JsStrings.TrimWhiteSpaceOnly` | web/src/app/actions.ts:35-36 | A string of white space only trims to the empty string. |
| `FeatureRequest.Truthy` | web/src/app/actions.ts:16-25 | A form field is falsy exactly when it is absent or the empty string. |
| `FeatureRequest.Decide` | web/src/app/actions.ts:10-39 | An insert carries the trimmed name and details, and is reached only with a raw name of 1 to 50 characters and raw details of 10 to 1000. |
| `FeatureRequest.Submit` | web/src/app/actions.ts:15-47 | Success only for a dropped bot submission or an accepted insert; a bot submission succeeds; a rejected form fails with the guard's message (the name or the details error); a refused insert gives the generic error. |
| `FeatureRequest.BotSubmissionIgnored` | web/src/app/actions.ts:15-18 | A filled-in honeypot gives success without an insert, whatever the other fields hold. |
| `FeatureRequest.NameRejectedExactly` | web/src/app/actions.ts:21-23 | With an empty honeypot the name error is returned exactly when the name is missing, empty or longer than 50 characters. |
| `FeatureRequest.DetailsRejectedExactly` | web/src/app/actions.ts:25-27 | With a valid name the details error is returned exactly when the details are missing, shorter than 10 or longer than 1000 characters. |
| `FeatureRequest.NameCheckedFirst` | web/src/app/actions.ts:21-27 | With both fields invalid, the name error is returned. |
| `FeatureRequest.InsertExactlyWhenValid` | web/src/app/actions.ts:15-39 | An insert is attempted exactly when the honeypot is empty and both fields pass. |
| `FeatureRequest.InsertOutcome` | web/src/app/actions.ts:29-47 | After an insert, success exactly when the store accepts it, and the generic error otherwise. |
| `FeatureRequest.SuccessMeaning` | web/src/app/actions.ts:15-47 | Success exactly for a filled-in honeypot or an insert the store accepted. |
| `FeatureRequest.BlankNameInsertedEmpty` | web/src/app/actions.ts:21-37 | A name of white space only, 1 to 50 characters long, passes the checks and is inserted as the empty string. |
| `FeatureRequest.BoundaryLengths` | web/src/app/actions.ts:21-27 | Names of 0 or 51 characters and details of 9 or 1001 are rejected; details of 10 and 1000 are accepted. |

## Left out

- The data fetch (the two store queries, error logging, the `loading` flag and its spinner): network I/O; the rows it delivers are the inputs of `ReceiveRankings`.
- Rendering: JSX, animation, the class-name helper and the three-decimal display of ratings.
- The memoisation of the derived view: `SortedAndFilteredData` recomputes it on every call, which gives the same rows.
- Floating-point ratings: ratings are real numbers compared with `<`; NaN and rounding are not modelled.
- Unicode case mapping: `LowerChar` lowers ASCII capitals only; `toLowerCase` on other scripts is not modelled.
- String lengths: `|s|` counts Unicode scalar values, while JavaScript counts UTF-16 code units, so names and details with characters outside the Basic Multilingual Plane are measured differently.
- StrLess: orders characters by Unicode code point, while JavaScript's string `<` compares UTF-16 code units, so the two orders differ when a character outside the Basic Multilingual Plane meets one from U+E000 to U+FFFF (JavaScript puts U+1F600 before U+FF5E, `StrLess` after).
- Sort stability and the host's sort algorithm: `SortInPlace` guarantees ordering and the same rows, not the host's order among tied rows.
- The store insert, the admin client and the `console.error` on failure: foreign calls; the insert's result is the `storeAccepts` parameter.
- A form field sent as a file rather than text: the fields are strings or absent.
- The root layout and the theme configuration: metadata and styling, no logic.
