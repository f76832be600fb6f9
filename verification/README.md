# Input UI components: a Dafny model of the table and input-field logic

This project models the behaviour of two React widgets, with the rendering
stripped away:

- **DataTable** (`src/components/dataTable/dataTable.tsx`). It shows rows under
  column headers. Clicking a sortable header sets or flips the sort. Rows can
  be selected one at a time, or all at once with the header checkbox. Every
  selection change reports the selected rows to `onRowSelect`. The widget shows
  a loading message, an empty-state message, or the table.
- **InputField** (`src/components/inputField/inputField.tsx`). A labelled text
  input. It can have a password-visibility toggle, a clear button, helper text
  and an error message. It derives its input `type`, its buttons and its
  `aria-describedby` from its properties and one boolean of state.

Both widgets are modelled as immutable datatypes and pure functions. A widget's
state is an explicit value. Each interaction is a transition function from
(properties, state, event) to a new state plus the callback payload, if any.
The rendered output is a datatype holding only its behavioural content.

Modules:

- `Options`: optional properties and JavaScript truthiness. A string property
  is truthy when it is present and non-empty. A boolean property is truthy when
  it is present and true.
- `Decimal`: the exact decimal text of an integer, which is the text `String(n)`
  gives for integers up to 2^53 in magnitude, and a parser that reads it back.
- `StableSort`: a stable comparison sort, specified by three properties. The
  result is a permutation of the input. It is ordered by the comparator. Equal
  keys keep their input order.
- `TableModel`: values, row ids, rows, column descriptors, `row[field]`, and the
  text of a cell.
- `TableSort`: the sort state, `toggleSort`, the comparator, and the sorted view.
- `TableSelection`: `toggleSelectRow`, `toggleSelectAll`, and the reported rows.
- `TableView`: the three display states, headers (`aria-sort` and the glyph),
  body rows, and the event step.
- `InputField`: defaults, `showPassword`, the effective type, the clear and
  visibility buttons, the helper and error texts, `aria-describedby`, and the
  event step.

Behaviour modelled as the code has it, which a user of the widgets might not expect:

- The sorted view is skipped when `!sortKey` holds. So a column whose field
  name is the empty string shows `aria-sort="ascending"`, but its rows stay in
  input order. `TableSort.Unsorted` models this.
- The clear button also requires `clearable`.
- Comparing `null` with `undefined` is not consistent. The model has a single
  `Null`.

## Model

| member | source | states |
|---|---|---|
| `Decimal.IntRoundTrip` | src/components/dataTable/dataTable.tsx:147 | the text an integer cell shows reads back as that integer, so two different numbers never show the same text |
| `Decimal.CanonicalRoundTrip` | src/components/dataTable/dataTable.tsx:147 | every canonical decimal text reads as an integer whose text it is, so each integer has exactly one canonical text |
| `TableModel.CellText` | src/components/dataTable/dataTable.tsx:147 | an empty cell shows "", a string cell shows the string itself, and a number cell shows the canonical decimal of the number (no leading zero, no "-0"), which parses back to it |
| `TableModel.NumberTextUnique` | src/components/dataTable/dataTable.tsx:147 | any canonical decimal text that reads back as n is exactly the text a cell holding n shows, so the cell text is determined by the number |
| `TableSort.ToggleSort` | src/components/dataTable/dataTable.tsx:29-37 | a non-sortable header changes nothing; a new key becomes active in ascending order; the active key keeps its place and its direction changes; an active key is never cleared |
| `TableSort.RepeatedClicks` | src/components/dataTable/dataTable.tsx:29-36 | after n >= 1 clicks on one sortable header its key is active; directions alternate, ascending after odd counts when the key was not active, and never return to unsorted |
| `TableSort.Compare` | src/components/dataTable/dataTable.tsx:44-58 | equal values compare 0; an empty value compares after any non-empty one in both directions; two distinct numbers compare negative exactly when the first is smaller (ascending) or larger (descending); two distinct strings compare as the collation, with arguments swapped for descending; a number against a string compares -1 |
| `TableSort.DescNegatesAsc` | src/components/dataTable/dataTable.tsx:47-58 | for two distinct non-empty values of one kind, neither direction calls them equal and descending has the opposite sign of ascending; for numbers it is exactly the negation |
| `TableSort.CompareConsistent` | src/components/dataTable/dataTable.tsx:44-58 | on a column without a number/string mix and with a consistent collation, the comparator is zero exactly on equal values, antisymmetric and transitive in either direction |
| `TableSort.SortedView` | src/components/dataTable/dataTable.tsx:39-41 | without an active (truthy) key the displayed rows are the given rows; with one they are a permutation of them |
| `TableSort.SortedViewStable` | src/components/dataTable/dataTable.tsx:41 | with an active key, the rows sharing any one sort value appear in the same relative order as given, in either direction |
| `TableSort.SortedViewOrdered` | src/components/dataTable/dataTable.tsx:41-59 | with an active key on a homogeneous column, each displayed row compares at most equal to every later one under the active comparator |
| `TableSort.NullsLast` | src/components/dataTable/dataTable.tsx:45-46 | in a sorted view, every row after one with an empty sort cell also has an empty sort cell, in both directions |
| `TableSort.SortedNumbersFollowOrder` | src/components/dataTable/dataTable.tsx:39-59 | on a column of numbers and empty cells, an ascending view shows the numbers non-decreasing and a descending view non-increasing |
| `StableSort.Sort` | src/components/dataTable/dataTable.tsx:41 | sorting a copy yields a permutation of the rows (same multiset) |
| `StableSort.SortSorted` | src/components/dataTable/dataTable.tsx:41-59 | under a comparator consistent on the keys present, the sorted copy is ordered by it |
| `StableSort.SortStable` | src/components/dataTable/dataTable.tsx:41 | for every key, the elements carrying it appear in the sorted copy exactly in their input order |
| `TableSelection.RowsIn` | src/components/dataTable/dataTable.tsx:66 | the reported rows are the given rows whose id is selected, and no others |
| `TableSelection.RowsInConcat` | src/components/dataTable/dataTable.tsx:66 | reporting keeps the given order: filtering two concatenated parts is the concatenation of the filtered parts |
| `TableSelection.RowsInAll` | src/components/dataTable/dataTable.tsx:74-76 | when every row id is selected the report is the given rows unchanged |
| `TableSelection.RowsInNone` | src/components/dataTable/dataTable.tsx:71-72 | with nothing selected the report is empty |
| `TableSelection.ToggleSelectRow` | src/components/dataTable/dataTable.tsx:62-67 | the clicked id changes membership and no other id does; the reported rows are exactly the given rows whose id is in the new selection |
| `TableSelection.ToggleSelectRowTwice` | src/components/dataTable/dataTable.tsx:62-65 | two clicks on one row checkbox restore the selection |
| `TableSelection.ToggleSelectAll` | src/components/dataTable/dataTable.tsx:69-78 | when the selection size equals the row count the selection is cleared and [] is reported; otherwise every row id is selected and the rows are reported unchanged |
| `TableSelection.RowToggleReportsSelection` | src/components/dataTable/dataTable.tsx:62-67 | a row checkbox reports exactly the given rows whose id ends up selected, in given order and independent of the sort |
| `TableSelection.SelectAllReportsSelection` | src/components/dataTable/dataTable.tsx:69-78 | "select all" reports exactly the given rows whose id ends up selected, in given order and independent of the sort |
| `TableSelection.IdsCount` | src/components/dataTable/dataTable.tsx:74 | there are at most as many distinct ids as rows, and exactly as many when ids are unique |
| `TableSelection.AllCheckedMeansEveryRow` | src/components/dataTable/dataTable.tsx:92 | with unique ids and no stale ids, the header checkbox's cardinality test holds exactly when every row is selected |
| `TableSelection.DuplicateIdsNeverAllChecked` | src/components/dataTable/dataTable.tsx:69-78 | with a repeated id the header checkbox is never checked by a selection of the rows' ids, so "select all" always selects and never clears |
| `TableSelection.RowToggleKeepsNoStaleIds` | src/components/dataTable/dataTable.tsx:62-67 | a row checkbox for a shown row never adds an id that no row carries |
| `TableSelection.SelectAllKeepsNoStaleIds` | src/components/dataTable/dataTable.tsx:69-78 | "select all" never adds an id that no row carries |
| `TableSelection.SelectAllTwice` | src/components/dataTable/dataTable.tsx:69-78 | with unique row ids and at least one row, from no selection, "select all" reports every row and checks the header; a second click clears and reports nothing |
| `TableView.Render` | src/components/dataTable/dataTable.tsx:80-147 | loading shows the loading state whatever the rows; otherwise no rows shows the empty state; otherwise a table whose header checkbox, when selectable, is checked exactly when the selection size equals the row count; each header carries its column's key and title and announces its column's sort; the body lists the rows of the sorted view in order, each highlighted and checked exactly when its id is selected, with each cell the text of its column's field |
| `TableView.Indicator` | src/components/dataTable/dataTable.tsx:114-122 | a glyph appears exactly on sortable headers; it is the up triangle exactly when the header announces ascending and the down triangle exactly when it announces descending; it is the up-down arrow exactly when the header announces no sort |
| `TableView.AriaSortAnnouncesState` | src/components/dataTable/dataTable.tsx:105-111 | reading a header's aria-sort back gives the active direction when the column reads the active key, and no direction otherwise |
| `TableView.HeadersAnnounceActiveKey` | src/components/dataTable/dataTable.tsx:105-111 | a header's aria-sort is other than "none" exactly when its column reads the active key |
| `TableView.BodyShowsEveryRow` | src/components/dataTable/dataTable.tsx:128-133 | when the table is shown (not loading, rows non-empty), every given row is shown under any sort state, highlighted exactly when its id is selected, so selection survives re-sorting |
| `TableView.Step` | src/components/dataTable/dataTable.tsx:88-144 | events on elements not on screen change nothing; a header click applies toggleSort for its column and leaves the selection; a row checkbox applies toggleSelectRow and the header checkbox toggleSelectAll, leaving the sort, and either calls onRowSelect exactly when it is given, with the selected rows in given order |
| `TableView.HeaderClickAnnounced` | src/components/dataTable/dataTable.tsx:101-111 | after a click on a sortable header, that header announces ascending when its column was not active, and the other direction when it was |
| `TableView.SelectAllFlipsHeaderCheckbox` | src/components/dataTable/dataTable.tsx:69-78 | with unique row ids, each click on the header checkbox flips whether it is checked |
| `TableView.RunInvariants` | src/components/dataTable/dataTable.tsx:62-78 | under fixed properties, any interaction sequence keeps the selection free of unknown ids and never clears an active sort key |
| `InputField.Resolve` | src/components/inputField/inputField.tsx:43-50 | an absent property takes its default (outlined, md, not clearable, no toggle, text, no autofocus); a given one is kept |
| `InputField.EffectiveType` | src/components/inputField/inputField.tsx:55 | with the toggle, the type is password exactly while the password is hidden and text exactly while it is shown; without it, the type property (default text) |
| `InputField.TypeIgnoredUnderToggle` | src/components/inputField/inputField.tsx:55 | with the toggle on, changing the type property never changes the effective type |
| `InputField.ToggleLabelMatchesType` | src/components/inputField/inputField.tsx:124 | the toggle is named "Show password" exactly while the input masks the password, and "Hide password" exactly while it shows it |
| `InputField.ClearShown` | src/components/inputField/inputField.tsx:105 | the clear button is shown exactly when the input is clearable, enabled, and its value is non-empty |
| `InputField.DescribedBy` | src/components/inputField/inputField.tsx:73-75 | absent exactly when there is neither helper text nor a shown error; otherwise "helper-text", "error-msg", or both in that order separated by one space |
| `InputField.DescriptionTexts` | src/components/inputField/inputField.tsx:148-157 | the helper text is rendered exactly when it is non-empty; the error text is rendered as an alert exactly when the input is invalid and has a non-empty message |
| `InputField.DescribedByNamesRenderedTexts` | src/components/inputField/inputField.tsx:73-75 | aria-describedby is the space-joined ids of the rendered texts, in rendering order, and is absent when none is rendered |
| `InputField.HelperIndependentOfValidity` | src/components/inputField/inputField.tsx:148-152 | whether the helper text is rendered does not depend on the invalid flag |
| `InputField.Render` | src/components/inputField/inputField.tsx:50-157 | autocompletion is current-password exactly with the toggle; right padding exactly for a suffix icon, the toggle or a clearable input; left padding exactly for a prefix icon; the type, clear button, visibility button name, texts and aria-describedby are the derived ones; the label is present for non-empty label text and raised exactly while the value is non-empty; aria-invalid is the invalid property as given, even without an error message; autofocus follows the autoFocus property, false by default |
| `InputField.Step` | src/components/inputField/inputField.tsx:94-125 | only the visibility button changes state; the clear button calls onChange, when given, once with "" exactly when it is shown; no event calls onChange when none is given; typing passes the text to onChange exactly when the input is enabled and onChange is given |
| `InputField.ToggleFlipsType` | src/components/inputField/inputField.tsx:125 | each toggle click swaps masked and plain text and two clicks restore the state; without the toggle a click changes nothing and the type is the type property |
| `InputField.ClearThenHidden` | src/components/inputField/inputField.tsx:109-111 | once the caller applies the value the clear button reported, the clear button is hidden, and clearing left showPassword untouched |
| `InputField.EditShowsClear` | src/components/inputField/inputField.tsx:105 | in a clearable, enabled input, a typed text is passed to onChange, and once applied the clear button is shown exactly when the text is non-empty |
| `InputField.ToggleChangesOnlyTypeAndLabel` | src/components/inputField/inputField.tsx:121-125 | a click on the visibility button changes only the input type and the button's name in the rendered input |

## Left out

- JSX, DOM structure, SVG icons, `inputRef`, and focus handling are presentational. Only what they show that carries behaviour is modelled.
- Tailwind class strings (`sizeClasses`, `variantClasses`, `baseClass`, `labelClass`, row and header classes) are left out. The model keeps only the facts they encode: left and right padding, the row highlight, and whether the label is raised. `variant` and `size` are only resolved to their defaults.
- React hook semantics (`useState` batching, `useMemo` caching) are left out. State is an explicit value, and each event takes one value to the next.
- `localeCompare` depends on the host and the locale. It is a parameter `collate`. Claims about sorted order assume it is consistent on the column's strings: zero only on equal strings, antisymmetric in sign, and transitive.
- The JavaScript engine's sort algorithm is left out. The sorted copy is an insertion sort, proved to be a permutation of the rows, ordered, and stable.
- `TableSort.Compare`: a number compared with a string is modelled as a comparison with `NaN`, so it returns -1. JavaScript would first convert a numeric string such as "10" to a number; that conversion is not modelled.
- `TableSort.SortedViewOrdered`: the order is proved only for columns that do not mix numbers and strings. The comparator is inconsistent on mixed columns, and the engine's result is then implementation-defined.
- `TableSort.NullsLast`: proved under the same homogeneous-column condition as `SortedViewOrdered`.
- `TableSort.DescNegatesAsc`: for strings, only the sign is negated, because `localeCompare` only promises a sign.
- `null` versus `undefined`, non-integer numbers, `NaN`, booleans and objects as cell values are left out. Values are `Null`, integers and strings.
- `TableModel.CellText`: JavaScript numbers are doubles. Above 2^53 in magnitude, `String` prints the shortest digits that read back to the same double, padded with zeros (`String(2**64)` is "18446744073709552000"). From 10^21 in magnitude it uses exponent notation (`String(-1e21)` is "-1e+21"). The model writes the exact digits of every integer, so its promise matches JavaScript only for integers of magnitude at most 2^53. Integers above 2^53 that no double represents, such as 2^53+1, are not JavaScript numbers at all.
- `NumberTextUnique`: it holds for the exact decimal text. Above 2^53 in magnitude that text is not the one JavaScript shows, for the reasons given under `TableModel.CellText`.
- `Decimal.IntRoundTrip`: reading back the exact digits gives the exact integer. JavaScript's text for a number above 2^53 reads back to the same double, not to an arbitrary integer.
- Duplicate and stale row ids are mirrored, not guarded against. The cardinality test of "select all" is kept as written. `DuplicateIdsNeverAllChecked` states what it does with repeated ids.
- Properties changing between renders are not covered. `TableView.Run` keeps the properties fixed.
- The change event passed to `onChange` is reduced to its string value.
- `placeholder`, the label's `aria-label`, and the row checkboxes' `aria-label` are passed through unchanged and not modelled.
- Icons (`ReactNode`) are present or absent. Falsy nodes such as `0` or `""` are not distinguished.
- Stories and test files hold no logic.
