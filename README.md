# People table view state, in Dafny

This project models the view-state engine of a small React people table. The
repository has two variants of the component: the class component `App` in
`src/App.tsx` and the hook-based `AppFunction` in `src/AppFunction.tsx`. They
hold the same four pieces of state:

- the loaded `users`;
- the `searchQuery`;
- the sort column `sortBy`, which may be null;
- the direction flag `isReverse`.

From that state both variants derive the visible rows. They filter the users
by name and then sort a copy of the result by the chosen column.

Modules:

- `People` (`people.dfy`) holds the `User` record and `Field`, the closed set
  of column names that replaces `keyof User`. It also holds `Value`, the run-time
  classification of `user[field]` into string, number or `null`.
- `Text` (`text.dfy`) holds the string operations the filter and comparator
  use: `toLowerCase`, `trim`, `includes` and `localeCompare`.
- `ViewState` (`view_state.dfy`) holds the logic both components share:
  - the sort-column state machine;
  - the header icon;
  - the name filter;
  - the comparator;
  - the sort of a fresh copy;
  - the filter-then-sort pipeline.
- `ClassComponent` (`app.dfy`) models class `App`. `FunctionComponent`
  (`app_function.dfy`) models `AppFunction`. In each, a Dafny class holds the
  component's state fields. Methods with `modifies this` model the handlers
  that replace that state. Both classes are specified against the same
  `ViewState` definitions.

The sort is an in-place insertion sort on a fresh array. It receives the
comparator as a callback, as `copy.sort` does. It is proved for every column
to produce a permutation with neighbours in comparator order. The comparator
is proved antisymmetric on every column. On the five columns that are never
`null` it is also proved transitive, so on those columns the whole result is
in order. On `fatherName` and `motherName` a `null` ties with every string.
The comparator is then not transitive (`NullableColumnNotTransitive`), so for
those columns the model claims only a permutation.

## Model

| member | source | states |
|---|---|---|
| `People.FieldValue` | src/App.tsx:8-16 | `user[field]` is a number exactly on `born`/`died`; it can be `null` only on the parent-name columns, and there exactly when that name is absent |
| `Text.TrimStart` | src/App.tsx:56 | leading part of `trim`: the result is the suffix of the input that starts at its first non-whitespace character; everything dropped is whitespace |
| `Text.TrimEnd` | src/AppFunction.tsx:46 | trailing part of `trim`: the result is the prefix of the input that ends at its last non-whitespace character; everything dropped is whitespace |
| `Text.ToLower` | src/App.tsx:56 | `toLowerCase()` keeps the length, maps each upper-case letter to its lower-case partner, keeps every other character, and leaves no upper-case letter |
| `Text.ToLowerIdempotent` | src/AppFunction.tsx:46 | lower-casing an already lower-cased string changes nothing |
| `Text.Trim` | src/App.tsx:56 | `trim()`: the result is the input with a whitespace-only prefix and a whitespace-only suffix removed, no whitespace is left at either end, and it is empty exactly when the query is empty or whitespace-only |
| `Text.Includes` | src/App.tsx:56 | `includes` holds exactly when some position of the lower-cased name starts a copy of the needle (so the empty needle is always included) |
| `Text.LocaleCompare` | src/App.tsx:77-79 | the string comparison returns -1, 0 or 1, and 0 exactly for equal strings |
| `Text.LocaleCompareAntisymmetric` | src/AppFunction.tsx:67-69 | swapping the two strings negates the comparison |
| `Text.LocaleCompareTransitive` | src/App.tsx:78 | the string comparison is transitive: a <= b and b <= c give a <= c |
| `ViewState.NextSort` | src/App.tsx:89-99 | after any header click the clicked column is the sort column |
| `ViewState.ClickActiveColumnTwice` | src/App.tsx:92-96 | a click on the current sort column flips `isReverse` and keeps `sortBy`, so two clicks restore the original state |
| `ViewState.ClickOtherColumn` | src/App.tsx:98 | a click on another column selects it with `isReverse` false, and a second click on it makes it descending |
| `ViewState.SortIcon` | src/App.tsx:40-50 | the icon is neutral exactly for columns other than `sortBy`; for `sortBy` it is up exactly when reversed and down exactly when not |
| `ViewState.IconAfterClick` | src/AppFunction.tsx:79-89 | after a click the clicked column's icon goes neutral -> down -> up -> down, and every other column shows the neutral icon |
| `ViewState.Matches` | src/App.tsx:55-57 | the filter callback: the lower-cased name includes the lower-cased, trimmed query; every user matches an empty or whitespace-only query |
| `ViewState.Filter` | src/AppFunction.tsx:45-47 | `Array.prototype.filter`: the result is a subsequence of the input (order kept) that holds every occurrence of each kept element and no other element |
| `ViewState.FilterKeepsAll` | src/AppFunction.tsx:45-47 | when the callback keeps every element, `filter` returns the input unchanged |
| `ViewState.FilterAgrees` | src/App.tsx:55-57 | two callbacks that agree on every element select the same result |
| `ViewState.FilterUsers` | src/App.tsx:52-58 | the filter result is a subsequence of the users (input order kept) and holds every occurrence of each matching user and no other user |
| `ViewState.BlankQueryKeepsAll` | src/AppFunction.tsx:44-48 | an empty or whitespace-only query returns the whole list unchanged |
| `ViewState.FilterCaseInsensitive` | src/App.tsx:56 | two queries that differ only in letter case select the same users |
| `ViewState.CompareValues` | src/App.tsx:77-85 | two strings compare as -1, 0 or 1, and 0 exactly when equal; two numbers compare negative exactly when the first is smaller and 0 exactly when equal; a pair with `null` compares as 0. Its ordering properties are stated by the comparator lemmas below |
| `ViewState.Compare` | src/AppFunction.tsx:59-76 | on `born`/`died` the comparator is negative exactly when the first user's year is smaller (forward) or larger (reverse). Its ordering properties are stated by the comparator lemmas below |
| `ViewState.ReverseSwapsOperands` | src/App.tsx:70-75 | the reverse comparator on (a, b) equals the forward comparator on (b, a) |
| `ViewState.MixedPairTies` | src/AppFunction.tsx:60-75 | a pair with a `null` value at the sort column compares as 0 in both directions |
| `ViewState.CompareAntisymmetric` | src/App.tsx:69-86 | on every column and in both directions, swapping the users negates the comparator |
| `ViewState.CompareTransitive` | src/App.tsx:77-83 | on a column that is never `null` the comparator is transitive |
| `ViewState.NullableColumnNotTransitive` | src/App.tsx:77-85 | on `fatherName` and on `motherName` a `null` ties with "A" and with "B", yet "B" compares after "A": no transitivity on either column |
| `ViewState.AdjacentToSorted` | src/AppFunction.tsx:59-76 | on a column that is never `null`, neighbours in comparator order mean every pair is in comparator order |
| `ViewState.NumericColumnOrder` | src/App.tsx:81-83 | sorted by `born` or `died`, the years are non-decreasing forward and non-increasing in reverse |
| `ViewState.TextColumnOrder` | src/AppFunction.tsx:67-69 | sorted by `name`, `sex` or `slug`, the strings ascend in `localeCompare` order forward and descend in reverse |
| `ViewState.Swap` | src/App.tsx:69 | an exchange inside the sorted copy: it swaps two neighbours, leaves the rest alone and keeps the multiset |
| `ViewState.InsertingStep` | src/App.tsx:69-86 | moving an element left past a neighbour that compares greater keeps the insertion invariant, using only that the comparator is antisymmetric |
| `ViewState.InsertingDone` | src/AppFunction.tsx:59-76 | once the element stops moving, every neighbouring pair in the first `i + 1` elements is in comparator order |
| `ViewState.Insert` | src/AppFunction.tsx:59 | one insertion step extends the ordered prefix by one element, keeps the multiset, and leaves the elements after index `i` unchanged |
| `ViewState.InsertionSort` | src/App.tsx:69-86 | sorting the copy in place with an antisymmetric callback yields a permutation whose neighbours are in callback order |
| `ViewState.SortUsers` | src/App.tsx:60-87 | with no sort column the very same array is returned; otherwise a fresh copy with the same users, ordered on never-`null` columns; the input array is never written |
| `ViewState.PrepareUsers` | src/AppFunction.tsx:92-94 | the rows shown are a permutation of the filtered users; they are the filtered users in load order when unsorted, and ordered when the sort column is never `null` |
| `ClassComponent.App.constructor` | src/App.tsx:26-31 | initial state: no users, empty query, `sortBy` null, `isReverse` false |
| `ClassComponent.App.LoadUsers` | src/App.tsx:33-38 | the delayed load replaces `users` and leaves query and sort state alone |
| `ClassComponent.App.SetSearchQuery` | src/App.tsx:113-120 | the search box stores the text verbatim and changes nothing else |
| `ClassComponent.App.ChangeSortHandler` | src/App.tsx:89-99 | a click on `sortBy` flips `isReverse` and keeps `sortBy`; a click elsewhere sets `sortBy` to the column and `isReverse` to false; users and query unchanged |
| `ClassComponent.App.GetSortIcon` | src/App.tsx:40-50 | neutral exactly for columns other than `sortBy`; for `sortBy`, up when reversed and down otherwise |
| `ClassComponent.App.PreparedUsers` | src/App.tsx:101-106 | `render`'s filter-then-sort of the state's users, as `ViewState.PrepareUsers` states |
| `FunctionComponent.AppFunction.constructor` | src/AppFunction.tsx:19-22 | initial hook values: no users, empty query, `isReverse` false, `sortBy` null |
| `FunctionComponent.AppFunction.LoadUsers` | src/AppFunction.tsx:24-29 | the delayed `setUsers` replaces `users` only |
| `FunctionComponent.AppFunction.SetSearchQuery` | src/AppFunction.tsx:104-106 | `setSearchQuery` stores the text verbatim and changes nothing else |
| `FunctionComponent.AppFunction.ChangeSortHandler` | src/AppFunction.tsx:31-42 | a click on `sortBy` flips `isReverse` through the updater and keeps `sortBy`; a click elsewhere sets `isReverse` false and `sortBy` to the column |
| `FunctionComponent.AppFunction.GetSortIcon` | src/AppFunction.tsx:79-89 | neutral exactly for columns other than `sortBy`; for `sortBy`, up when reversed and down otherwise |
| `FunctionComponent.AppFunction.PreparedUsers` | src/AppFunction.tsx:91-94 | the component body's filter-then-sort of `users`, as `ViewState.PrepareUsers` states |

## Left out

- Rendering is not modelled: the JSX, the table and input markup, and the `Loading...` line. They are presentation only.
- Header derivation from `Object.keys(users[0])` is not modelled. The closed `Field` type stands for the set of column names.
- The `uuid()` cell keys are not modelled. They are a random foreign call with no behaviour to state.
- The `setTimeout` timer and the `people.json` import are not modelled. `LoadUsers` takes the loaded array as a parameter and models only the state change the timer's callback makes.
- The icon glyph strings are not modelled; the `Icon` type has the three values neutral, up and down. In `src/AppFunction.tsx` the glyphs are mis-encoded text.
- `Text.LocaleCompare`: lexicographic order on characters stands for the locale-aware order of `String.prototype.localeCompare` (ECMA-402). Real collation can rank strings differently, and it can call distinct strings equal.
- `Text.ToLower`: only ASCII letters are folded. The Unicode case mapping of `toLowerCase` is not modelled, including mappings that change a string's length.
- Years are unbounded integers. JavaScript numbers are doubles, which is exact for calendar years.
- `ViewState.SortUsers`: for `fatherName` and `motherName` only a permutation is claimed. The engine's `Array.prototype.sort` (section 23.1.3.30 of ECMA-262) is implementation-defined for a comparator that is not consistent, and the insertion sort stands in for it. On the other columns the comparator is a total preorder.
- `ViewState.SortUsers`, `ViewState.PrepareUsers`, `ClassComponent.App.PreparedUsers` and `FunctionComponent.AppFunction.PreparedUsers` do not state stability. As a result, the claim that tied records keep their filter order is not modelled, and neither is the claim that repeated renders give the same row order when `sortBy` is set. With no sort column the order is fixed and stated.
- State updates take effect at once in the model. In React, `setState` and the hook setters are applied at the next render, and `changeSortHandler` in `src/AppFunction.tsx` reads `sortBy` from the render's closure (src/AppFunction.tsx:32). When events are handled one at a time, with a render between them, the outcome is the same.
- JavaScript strings are sequences of UTF-16 code units, while a Dafny `string` is a sequence of Unicode scalar values. `trim` and `includes` give the same answers on well-formed strings; lone surrogates are not modelled.
- Row selection (`selectRecord`, `resolveSelected`) belongs to a third variant of the component that is not part of this model.
