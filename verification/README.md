# Virtualized select: a verified model of the list engine and the selection state machine

The virtualized select is a React drop-down that lists many options in a virtualized,
optionally grouped list. It also offers a debounced search box, keyboard navigation,
single or multi selection (controlled or uncontrolled), and select-all and clear buttons.
This project models its core in Dafny and proves what each part computes.

- **Row model** (`row_model.dfy`):
  - the search filter, which compares the trimmed, lower-cased label with the trimmed,
    lower-cased search;
  - the grouping of the filtered options with `Map.groupBy`;
  - the flattening of the groups into one row sequence (a header row followed by its
    options, with the header positions recorded);
  - the size estimated for each row.
- **Navigation** (`navigation.dfy`): `getNextValidOptionIndex`. This is the `while` loop
  that skips headers and disabled options in the arrow's direction. It either stops at
  the ends of the list or wraps around (`loop`).
- **List state** (`select_content.dfy`): class `SelectContent` holds the committed search,
  the search waiting for its debounce timer, the focused row, the active sticky header and
  the rows scrolled to. Its events are:
  - key presses;
  - the pointer moving over, or clicking, an option;
  - the debounce timer firing;
  - the virtualizer asking the sticky range extractor for its rows.
- **Selection logic** (`selection.dfy`), as values:
  - the enabled values and the value-to-label map;
  - what a toggle commits in multi and single mode, with and without `forceSelection`;
  - when the clear and select-all buttons are disabled;
  - the trigger label.
- **Select state** (`select.dfy`): classes `MultiSelect` and `SingleSelect`. Each holds the
  shadow selection, the open state and the callbacks made. They cover:
  - seeding the shadow from `selection` or `defaultSelection`;
  - reading the `selection` property when it is defined (controlled mode) and the shadow
    otherwise;
  - the commit step, which always writes the shadow, then closes the popover or asks for
    the focus;
  - the buttons, which do nothing while disabled.
- **Helpers** (`text.dfy`, `sequences.dfy`):
  - `trim`, `toLowerCase`, `includes` and the decimal rendering of a count;
  - a JavaScript `Set` built from an array, which keeps first occurrences in insertion order;
  - `[...set].sort((a, b) => a - b)`.

Options are opaque: every fact about an option comes through the value, label, group and
disabled functions passed in. Optional function properties (`getOptionLabel`,
`isOptionDisabled`, `getOptionGroup`, `getOptionSize`, `getOptionGroupSize`) are `Option`
values, `None` when the caller leaves them out. The `selection` and `defaultSelection`
properties are `Maybe` values (`Undefined` when left out, `Defined` otherwise), and their
JavaScript `null` is `None`.

Points where the code behaves in a way that is easy to misread:
- `isSelectAllDisabled` includes the size test `enabledOptionValues.length <= selectionSet.size`,
  so it is not the same as "no enabled value is unselected".
  `SelectAllDisabledIff` shows that the two agree whenever every selected value is enabled.
  `SelectAllDisabledWithUnselected` gives a selection holding a value that is no longer
  enabled, for which select-all is disabled although an enabled value is unselected.
- The commit step writes the shadow selection also in controlled mode, where it is never read.
- The search filter trims and lower-cases the label as well as the search.
- `handleClear` itself is unconditional. Clearing is prevented only by the button being
  disabled, which `PressClear` models.
- The scan of `getNextValidOptionIndex` stops only at a valid row, at the ends of the list
  without `loop`, or at the current index; it has no check against the row it started from.
  See "## Findings".

## Model

| member | source | states |
|---|---|---|
| Text.TrimSpec | src/components/virtualized-select/select-content.tsx:80 | `trim()` yields a contiguous slice of the string with exactly the leading and trailing white space removed |
| Text.TrimStartSpec | src/components/virtualized-select/select-content.tsx:80 | dropping leading white space leaves a suffix that does not start with white space, and everything dropped is white space |
| Text.TrimEndSpec | src/components/virtualized-select/select-content.tsx:80 | dropping trailing white space leaves a prefix that does not end with white space, and everything dropped is white space |
| Text.LowerSpec | src/components/virtualized-select/select-content.tsx:80 | `toLowerCase()` keeps the length; afterwards no character is an upper-case letter; each upper-case letter becomes the letter 32 code points higher and every other character is kept; lower-casing twice is the same as once |
| Text.Normalize | src/components/virtualized-select/select-content.tsx:80-87 | `trim().toLowerCase()`, applied to the search and to each label; `TrimSpec` and `LowerSpec` state what it keeps |
| Text.ContainsIff | src/components/virtualized-select/select-content.tsx:87 | `includes(t)` holds exactly when `t` occurs in the string at some position |
| Text.DecimalString | src/components/virtualized-select/select.tsx:259 | the count in the label is a non-empty string of decimal digits without a leading zero |
| Text.DecimalRoundTrip | src/components/virtualized-select/select.tsx:259 | reading the printed count back as a decimal number gives the count |
| Sequences.SetOfSize | src/components/virtualized-select/select.tsx:131 | `selectionSet.size` is at most the selection's length, and equal to it without duplicates |
| Sequences.First | src/components/virtualized-select/select.tsx:153-155 | the index returned is the first occurrence of the element |
| Sequences.Dedup | src/components/virtualized-select/select.tsx:153-155 | `[...new Set(s)]` holds exactly the elements of `s`, without duplicates |
| Sequences.DedupFirstOccurrenceOrder | src/components/virtualized-select/select.tsx:153-155 | a `Set` lists its elements in the order of their first occurrences in the array |
| Sequences.DedupOfNoDup | src/components/virtualized-select/select.tsx:153-155 | a duplicate-free array goes through a `Set` unchanged |
| Sequences.Without | src/components/virtualized-select/select.tsx:153-155 | `delete` removes exactly that value and keeps every other element; `WithoutConcat` and `WithoutKeepsOrder` show it keeps the remaining elements in their order |
| Sequences.WithoutConcat | src/components/virtualized-select/select.tsx:153-155 | removing a value from two arrays joined is removing it from each, so the order of what remains is kept |
| Sequences.DedupOrdered | src/components/virtualized-select/select.tsx:153-155 | the values of `[...new Set(s)]` appear in the order of their first occurrences in `s` |
| Sequences.WithoutKeepsOrder | src/components/virtualized-select/select.tsx:153-155 | deleting a value from a set keeps the others in first-occurrence order |
| Sequences.WithoutNoDup | src/components/virtualized-select/select.tsx:153-155 | deleting a value keeps a duplicate-free selection duplicate-free |
| Sequences.WithoutAbsent | src/components/virtualized-select/select.tsx:158 | removing an absent value changes nothing; removing an appended one undoes the append |
| Sequences.Insert | src/components/virtualized-select/select-content.tsx:158-163 | inserting into a strictly ascending sequence keeps it strictly ascending; its elements become those of `s` plus `x`, and nothing is added when `x` is already present |
| Sequences.SortedUnique | src/components/virtualized-select/select-content.tsx:158-163 | `[...new Set(xs)].sort((a, b) => a - b)` is strictly ascending and holds exactly the elements of `xs` |
| Sequences.AscendingUnique | src/components/virtualized-select/select-content.tsx:158-163 | two strictly ascending sequences with the same elements are equal, so the extractor's output is determined by its set of indices |
| RowModel.Matching | src/components/virtualized-select/select-content.tsx:86-88 | the filter never makes the list longer |
| RowModel.MatchingMembers | src/components/virtualized-select/select-content.tsx:86-88 | an option survives the filter exactly when it is an option whose normalized label contains the query |
| RowModel.MatchingConcat | src/components/virtualized-select/select-content.tsx:86-88 | filtering distributes over concatenation, so the relative order of the options is kept |
| RowModel.SearchFilter | src/components/virtualized-select/select-content.tsx:79-89 | an empty normalized search returns the options unchanged; any other search returns the order-preserving filter on the normalized label |
| RowModel.SearchFilterMembers | src/components/virtualized-select/select-content.tsx:79-89 | an option is kept exactly when it is an option and either the normalized search is empty or its normalized label contains the normalized search |
| RowModel.GroupBySpec | src/components/virtualized-select/select-content.tsx:102-107 | `Map.groupBy` has the distinct keys in first-occurrence order, and each key maps to exactly its options in their original order; no group is empty |
| RowModel.GroupByCount | src/components/virtualized-select/select-content.tsx:102-107 | the group sizes add up to the number of filtered options |
| RowModel.GroupBy | src/components/virtualized-select/select-content.tsx:102-107 | `Map.groupBy` on the filtered options; `GroupBySpec` and `GroupByCount` prove its keys, groups and sizes |
| RowModel.Flatten | src/components/virtualized-select/select-content.tsx:99-109 | the `forEach` over the groups; `FlattenCount` and `FlattenWellFormed` prove its rows and header positions |
| RowModel.Build | src/components/virtualized-select/select-content.tsx:91-110 | the row model; `UngroupedRows`, `GroupedRows`, `BuildEmpty` and `BuildWellFormed` prove its shape |
| RowModel.BuildRows | src/components/virtualized-select/select-content.tsx:91-110 | the `forEach` that pushes each group's header and members builds exactly the flattened row model |
| RowModel.UngroupedRows | src/components/virtualized-select/select-content.tsx:92-97 | without grouping the rows are the filtered options in order, and there are no headers |
| RowModel.GroupedRows | src/components/virtualized-select/select-content.tsx:99-109 | with grouping: one header per distinct key in first-occurrence order; each header is followed by exactly its group's options in filtered order; the row count is the filtered count plus the number of keys; the header positions are strictly ascending and point at header rows |
| RowModel.FlattenWellFormed | src/components/virtualized-select/select-content.tsx:104-105 | recording the position before pushing each header gives ascending header positions that are exactly the header rows |
| RowModel.FlattenCount | src/components/virtualized-select/select-content.tsx:104-105 | flattening gives one header per group and one row per member, starting with a header at 0 |
| RowModel.BuildEmpty | src/components/virtualized-select/select-content.tsx:91-110 | the list has rows exactly when some option passed the filter, grouped or not |
| RowModel.BuildWellFormed | src/components/virtualized-select/select-content.tsx:112-115 | `isOptionGroup(i)` agrees with the kind of row `i`; a grouped, non-empty list starts with a header followed by an option |
| RowModel.Members | src/components/virtualized-select/select-content.tsx:102-105 | a group's members all carry its key, and there are no more of them than options |
| RowModel.EstimateSize | src/components/virtualized-select/select-content.tsx:112-145 | a header row gets the group-size function's value (the default group size without one); an option row gets the option-size function's value (the default option size without one) |
| Navigation.ValidIndexIff | src/components/virtualized-select/select-content.tsx:212-222 | `isValidIndex` means in bounds, not a header position, and not disabled |
| Navigation.FirstValid | src/components/virtualized-select/select-content.tsx:251-273 | the scan's outcome is the current index or a probed row that is valid |
| Navigation.FirstValidChar | src/components/virtualized-select/select-content.tsx:251-273 | the outcome is the current index when no probed row is valid, and otherwise the first valid probed row |
| Navigation.NextValidIndex | src/components/virtualized-select/select-content.tsx:205-276 | `getNextValidOptionIndex` returns the first valid row in its probe order, or the current index; either way, whatever it returns other than the current index is a valid row |
| Navigation.ScanFrom | src/components/virtualized-select/select-content.tsx:251-273 | the `while` loop from the seed row returns the first valid probed row, or the current index when there is none |
| Navigation.NoLoopDown | src/components/virtualized-select/select-content.tsx:225-264 | down without `loop` (from -1 or a row): the least valid row after the current index, or the current index when there is none |
| Navigation.NoLoopUp | src/components/virtualized-select/select-content.tsx:225-264 | up without `loop`: the greatest valid row before the current index (from -1: the greatest valid row of all), or the current index when there is none |
| Navigation.LoopProbeCovers | src/components/virtualized-select/select-content.tsx:239-259 | with `loop` the scan visits every row exactly once, cyclically from one step past the current index, and reaches the current row last |
| Navigation.LoopResult | src/components/virtualized-select/select-content.tsx:239-271 | with `loop` the result is the current index exactly when no other row is valid; otherwise it is the first valid row met cyclically |
| Navigation.AsWrittenNeverReturns | src/components/virtualized-select/select-content.tsx:252-271 | with `loop`, no valid row and a current index outside the rows, the loop as written does not return however many steps it takes |
| Navigation.OneDisabledOptionHangs | src/components/virtualized-select/select-content.tsx:252-271 | one disabled option, focus -1, `loop`, ArrowDown: the loop as written never returns, while the corrected scan returns -1 |
| Navigation.ScanAsWritten | src/components/virtualized-select/select-content.tsx:252-271 | the loop as written, run for a bounded number of steps; whatever it returns is the current index or a valid row, and it is still running only at a row that is not valid |
| Navigation.AsWrittenAgrees | src/components/virtualized-select/select-content.tsx:252-271 | from any probed row before the current one (with `loop` and a current index that is a row, the probe visits the current row last and the lemma excludes it; from there the code as written steps on past it) and with enough steps left, the loop as written returns what the first-valid rule picks from the rest of the probe, except with `loop`, a current index outside the rows and no valid row left |
| Navigation.AsWrittenAgreesFromSeed | src/components/virtualized-select/select-content.tsx:239-271 | from the first probed row, the loop as written returns exactly what `NextValidIndex` returns, in every case but the one of `AsWrittenNeverReturns` |
| Content.InitialFocus | src/components/virtualized-select/select-content.tsx:182-188 | there is no initial focus (-1) exactly when focusing the first option is off; otherwise it is row 0 or row 1 |
| Content.InitialFocusIsFirstOption | src/components/virtualized-select/select-content.tsx:182-188 | when focus starts on the first option and the list is not empty, the initial index (0, or 1 when grouped) is the first option row |
| Content.FindLastAtMost | src/components/virtualized-select/select-content.tsx:156 | `findLast` finds nothing exactly when every header lies after the start; otherwise it finds the last header at most the start |
| Content.ActiveHeader | src/components/virtualized-select/select-content.tsx:156 | the active header is 0 when every header lies after the start, and otherwise a header position at most the start |
| Content.ActiveHeaderGreatest | src/components/virtualized-select/select-content.tsx:154-156 | the active sticky header is the greatest header position at most the range's start, or 0 when there is none |
| Content.SelectContent.constructor | src/components/virtualized-select/select-content.tsx:182-193 | the list opens with an empty search and focus at the initial index, and its rows are those of the empty search |
| Content.SelectContent.HandleKeyDown | src/components/virtualized-select/select-content.tsx:278-337 | with no rows or a modifier held, nothing happens. An arrow moves focus to the next valid row in its direction and scrolls there. Enter selects the focused option's value exactly when focus is not -1, is not in the buttons, and the option is enabled |
| Content.SelectContent.PointerOver | src/components/virtualized-select/select-option.tsx:30-36 | the pointer over an enabled option focuses its row; over a disabled option nothing changes |
| Content.SelectContent.Click | src/components/virtualized-select/select-option.tsx:38-44 | a click selects the option's value exactly when the option is enabled |
| Content.SelectContent.SearchInput | src/components/virtualized-select/select-content.tsx:352-358 | new input replaces the pending search and changes nothing else |
| Content.SelectContent.SearchTimerFires | src/components/virtualized-select/select-content.tsx:358-362 | the pending text becomes the search, the rows are rebuilt for it, focus returns to the initial index and the list scrolls to row 0 |
| Content.SelectContent.ExtractRange | src/components/virtualized-select/select-content.tsx:149-165 | records the greatest header at most the range start as active; returns that header and the default indices, strictly ascending and without duplicates |
| Content.SelectContent.HasRangeExtractor | src/components/virtualized-select/select-content.tsx:150-152 | the sticky range extractor is installed only with a grouping function and `stickyGroups`; `ExtractRange` requires it |
| Selection.DeriveFacts | src/components/virtualized-select/select.tsx:70-92 | the `for` loop computes exactly the enabled values and the label map |
| Selection.EnabledValues | src/components/virtualized-select/select.tsx:74-80 | there are never more enabled values than options; `EnabledValuesMembers` and `EnabledValuesConcat` give which values and their order |
| Selection.LabelMap | src/components/virtualized-select/select.tsx:74-76 | the label map for the options; `LabelMapLast` proves which entries it has and that the last option with a value wins |
| Selection.EnabledValuesConcat | src/components/virtualized-select/select.tsx:74-80 | the enabled values of two option lists, one after the other, are those of each list in order |
| Selection.EnabledValuesMembers | src/components/virtualized-select/select.tsx:74-80 | a value is enabled exactly when some option carrying it is not disabled |
| Selection.NoDisabledMeansAll | src/components/virtualized-select/select.tsx:65-68 | without `isOptionDisabled` the enabled values are all the values, in order |
| Selection.LabelMapLast | src/components/virtualized-select/select.tsx:74-76 | the map has an entry exactly for the options' values, holding the label of the last option with that value |
| Selection.NoLabelMeansValue | src/components/virtualized-select/select.tsx:60-63 | without `getOptionLabel` each value is its own label |
| Selection.MultiToggle | src/components/virtualized-select/select.tsx:149-169 | an unselected value is appended; a selected one is removed from the deduplicated selection, except that under `forceSelection` the last distinct value stays; `MultiToggleRemovalOrder` shows the values that remain keep their first-occurrence order |
| Selection.MultiToggleRemovalOrder | src/components/virtualized-select/select.tsx:149-169 | removing a selected value leaves the other selected values in the order of their first occurrences in the selection |
| Selection.MultiToggleNoDup | src/components/virtualized-select/select.tsx:161-168 | a duplicate-free selection stays duplicate-free |
| Selection.MultiToggleTwice | src/components/virtualized-select/select.tsx:161-168 | toggling an unselected value twice gives back the duplicate-free selection |
| Selection.ForcedMultiNeverEmpty | src/components/virtualized-select/select.tsx:149-160 | under `forceSelection` a toggle never empties a non-empty selection |
| Selection.MultiClearDisabledIff | src/components/virtualized-select/select.tsx:170-174 | clear is disabled exactly when the buttons are off, under `forceSelection`, with nothing selected, or with no options |
| Selection.MultiClearDisabled | src/components/virtualized-select/select.tsx:170-174 | `isClearDisabled` in multi mode; `MultiClearDisabledIff` proves when it holds |
| Selection.SelectAllDisabledIff | src/components/virtualized-select/select.tsx:178-182 | when every selected value is enabled, select-all is disabled exactly when the buttons are off, there are no options, or every enabled value is selected |
| Selection.SelectAllDisabledWithUnselected | src/components/virtualized-select/select.tsx:178-182 | the size test can disable select-all while an enabled value is still unselected |
| Selection.SelectAllDisabled | src/components/virtualized-select/select.tsx:178-182 | `isSelectAllDisabled`; `SelectAllDisabledIff` and `SelectAllDisabledWithUnselected` prove when it holds |
| Selection.SingleToggle | src/components/virtualized-select/select.tsx:204-219 | selected means equal to the current value. A toggle sets the value, or `null` if it was selected; under `forceSelection` toggling the selected value commits nothing |
| Selection.ForcedSingleNeverNull | src/components/virtualized-select/select.tsx:208-213 | under `forceSelection` a toggle only ever commits a value, never `null` |
| Selection.SingleToggleTwice | src/components/virtualized-select/select.tsx:214-219 | without `forceSelection`, toggling a value twice from `null` returns to `null` |
| Selection.SingleClearDisabled | src/components/virtualized-select/select.tsx:220-224 | `isClearDisabled` in single mode; `SingleClearDisabledAsMulti` relates it to the multi test |
| Selection.SingleClearDisabledAsMulti | src/components/virtualized-select/select.tsx:220-224 | single-mode clear is disabled exactly when multi-mode clear would be for the selection holding just the current value, or nothing for `null` |
| Selection.MultiLabel | src/components/virtualized-select/select.tsx:246-260 | no values: "Select options..."; one value: its label, or the value when unmapped; more: a decimal count followed by " options selected" |
| Selection.MultiLabelCount | src/components/virtualized-select/select.tsx:259 | the count shown is the selection's length, duplicates included |
| Selection.SingleLabel | src/components/virtualized-select/select.tsx:261-272 | `null`: "Select an option..."; a value: its label, or the value when unmapped |
| Selection.SelectedLabelIsOptionLabel | src/components/virtualized-select/select.tsx:269-271 | a selected value that some option carries shows the label of the last such option; any other value shows as it is; one multi value shows like a single value |
| Select.MultiSelect.constructor | src/components/virtualized-select/select.tsx:106-115 | the shadow is seeded from `selection`, else `defaultSelection`, else `[]`; the enabled values and the label map are derived from the options |
| Select.MultiSelect.Current | src/components/virtualized-select/select.tsx:126-129 | the selection in effect: the `selection` property when it is defined, the shadow otherwise |
| Select.MultiSelect.IsSelected | src/components/virtualized-select/select.tsx:146-148 | `isOptionSelected` is membership in the selection in effect; `SelectOption` states its effect through it |
| Select.MultiSelect.HandleOpenChange | src/components/virtualized-select/select.tsx:50-56 | sets the open state and reports it to `onOpenChange` |
| Select.MultiSelect.Commit | src/components/virtualized-select/select.tsx:133-143 | reports the new selection and writes the shadow even when controlled. Then it closes and reports `false` with `closeOnChange`, or else asks for the focus. A controlled read is unchanged; an uncontrolled one becomes the new selection |
| Select.MultiSelect.SelectOption | src/components/virtualized-select/select.tsx:146-169 | an unselected value makes the whole commit of the selection with the value appended; a selected value, without `forceSelection`, ends up outside the new shadow; in general the multi toggle on the selection in effect decides between the whole commit (report, shadow, then close and report `false`, or ask for the focus) and no change at all, open state and focus requests included; under `forceSelection` a non-empty selection stays non-empty |
| Select.MultiSelect.Clear | src/components/virtualized-select/select.tsx:175-177 | the whole commit of the empty selection, including closing or asking for the focus |
| Select.MultiSelect.SelectAll | src/components/virtualized-select/select.tsx:183-185 | the whole commit of exactly the enabled values, including closing or asking for the focus |
| Select.MultiSelect.PressClear | src/components/virtualized-select/select-buttons.tsx:55-62 | a disabled clear button changes nothing, open state and focus requests included; under `forceSelection` clearing never happens; an enabled one makes the whole commit of `[]` |
| Select.MultiSelect.PressSelectAll | src/components/virtualized-select/select-buttons.tsx:47-54 | a disabled select-all button changes nothing, open state and focus requests included; an enabled one makes the whole commit of the enabled values |
| Select.MultiSelect.IsClearDisabled | src/components/virtualized-select/select.tsx:170-174 | multi-mode `isClearDisabled` over the selection in effect; `MultiClearDisabledIff` proves when it holds |
| Select.MultiSelect.IsSelectAllDisabled | src/components/virtualized-select/select.tsx:178-182 | `isSelectAllDisabled` over the selection in effect; `SelectAllDisabledIff` and `SelectAllDisabledWithUnselected` prove when it holds |
| Select.MultiSelect.TriggerLabel | src/components/virtualized-select/select.tsx:246-260 | the multi label of the selection in effect; `MultiLabel` and `MultiLabelCount` state what it shows |
| Select.SingleSelect.constructor | src/components/virtualized-select/select.tsx:96-105 | the shadow is seeded from `selection`, else `defaultSelection`, else `null`; the label map is derived from the options |
| Select.SingleSelect.Current | src/components/virtualized-select/select.tsx:189-190 | the selection in effect: the `selection` property when it is defined, the shadow otherwise |
| Select.SingleSelect.IsSelected | src/components/virtualized-select/select.tsx:205-207 | `isOptionSelected` is equality with the selection in effect; `SelectOption` states its effect through it |
| Select.SingleSelect.HandleOpenChange | src/components/virtualized-select/select.tsx:50-56 | sets the open state and reports it to `onOpenChange` |
| Select.SingleSelect.Commit | src/components/virtualized-select/select.tsx:192-202 | reports the new selection and writes the shadow even when controlled. Then it closes and reports `false` with `closeOnChange`, or else asks for the focus. A controlled read is unchanged; an uncontrolled one becomes the new selection |
| Select.SingleSelect.SelectOption | src/components/virtualized-select/select.tsx:205-219 | an unselected value makes the whole commit of that value; a selected value changes nothing under `forceSelection` and otherwise makes the whole commit of `null`; under `forceSelection` a selected value never becomes `null` |
| Select.SingleSelect.Clear | src/components/virtualized-select/select.tsx:225-227 | the whole commit of `null`, including closing or asking for the focus |
| Select.SingleSelect.PressClear | src/components/virtualized-select/select-buttons.tsx:69-76 | a disabled clear button changes nothing, open state and focus requests included; under `forceSelection` clearing never happens; an enabled one makes the whole commit of `null` |
| Select.SingleSelect.IsClearDisabled | src/components/virtualized-select/select.tsx:220-224 | clear is disabled with the buttons off, under `forceSelection`, with `null` selected, or with no options |
| Select.SingleSelect.TriggerLabel | src/components/virtualized-select/select.tsx:261-272 | the single label of the selection in effect; `SingleLabel` and `SelectedLabelIsOptionLabel` state what it shows |

## Left out

- The virtualizer (`useVirtualizer`, offsets, total size, measurement). `scrollToIndex` is recorded as the ghost log `scrolls`. The default range extractor's indices are an input of `ExtractRange`. `@tanstack/react-virtual` is not part of this model.
- Timers: the debounce is one pending-search slot that each input replaces. Clock time, `clearTimeout` and the debounce hook are not modelled.
- DOM and events: listener registration, `preventDefault`, and the `.focus()` calls (counted in `focusRequests`). `document.activeElement` containment is the boolean `focusInButtons`.
- Text.LowerSpec: only ASCII letters are lower-cased. Unicode case mapping is not modelled. `trim` uses JavaScript's full white-space set.
- React memoization and rendering: each memo is a recomputation from the current state, and the focus ref and focus state are one field. The component's properties are constants of each class; a property change at run time is not modelled.
- The popover mechanics. Only the open state and the `onOpenChange` reports are modelled. The open state changes only through `HandleOpenChange`.
- Presentation components (group header, trigger, search box, empty message): they hold no logic beyond passing values through. From select-option.tsx only the disabled-guarded pointer-over and click handlers are modelled; from select-buttons.tsx only the disabled flags guarding the two buttons.
- Callbacks: `onSelectionChange` and `onOpenChange` are optional. The ghost logs `changes` and `openChanges` record each report whether or not a callback is given.
- Row sizes are `real` values returned by the size functions; pixel layout is not modelled.
- Navigation.NextValidIndex: requires a non-empty row list; its one caller, the key handler, returns early on an empty list.
- Content.SelectContent.PointerOver and Content.SelectContent.Click: take a row index that is an option row, as the list renders option components only for option rows.

## Findings

| source | as written | input that shows it | evidently intended | confidence | as-written member | corrected member |
|---|---|---|---|---|---|---|
| src/components/virtualized-select/select-content.tsx:252-271 | with `loop` the scan's only exits are a valid row and coming back to the current index; when the current index is outside the rows and no row is valid, neither ever happens and the loop never ends | one option, disabled; focus -1 (no initial focus); `loop` on; ArrowDown | the check against the current index is meant to end the scan once every row has been looked at: the scan should stop after one full cycle and leave focus where it was | high (proved on the model; not executed) | Navigation.OneDisabledOptionHangs | Navigation.NextValidIndex |
