# UserTable row logic

A model of the editable grid in `src/components/ReactGrid.tsx`. The form
keeps one value, `data`: a list of `UserData` rows. Each row has a numeric
`id`, four text columns (name, email, department, description) and a
`selected` flag. The grid's handlers each replace that list with a new one:

- `addRow` appends a fresh row;
- `moveRow(direction)` moves the selected rows one place up or down, or
  to the top or the bottom;
- `handleDelete`, `handleUpdate` and `handleSelect` delete, edit or toggle
  every row that carries a given id.

The form starts from a fixed seed of 100 rows.

The project has five modules:

- `Rows` (`rows.dfy`) holds the record and the list vocabulary the
  contracts use: reversal, the split into selected and unselected rows, and
  unique ids.
- `Numerals` (`decimal.dfy`) renders a number in decimal, as the seed's
  template literals do, and reads it back.
- `RowEdits` (`edits.dfy`) holds the handlers that are single expressions,
  written as functions with lemmas: the seed, `addRow`, `handleDelete`,
  `handleUpdate` and `handleSelect`.
- `RowMoves` (`moves.dfy`) holds `moveRow`, which works step by step. The
  model follows it as methods over a local sequence `newData`, with one
  loop per direction. Each method is proved equal to a closed form of the
  result, and lemmas state what each closed form means. Every loop turn
  also proves the point the code silently relies on: the precomputed
  index it is about to use still addresses the row it was computed for, in
  the list as it was before the move.
- `Grid` (`grid.dfy`) holds the class `UserTable`. Its field `data` is the
  form value, and each handler is a method that reassigns it.

Ids are not kept unique by the code. The seed has ids 1 to 100, but
`addRow` takes its id from the clock and never checks it against the
list. Delete, edit and toggle are therefore specified on every row that
carries the id. For each handler, the model states exactly when the ids
stay unique:

- moving, editing and toggling keep uniqueness exactly as it was;
- deleting never breaks it;
- adding keeps it exactly when no row already carries the new id.

## Model

| member | source | states |
|---|---|---|
| Rows.WithField | src/components/ReactGrid.tsx:89 | `{ ...item, [key]: value }` sets column `key` to `value` and leaves the other columns, the id and the flag as they were |
| Numerals.Decimal | src/components/ReactGrid.tsx:18-22 | rendering a number gives a non-empty string of decimal digits with no leading zero |
| Numerals.DecimalRoundTrip | src/components/ReactGrid.tsx:18-22 | reading a rendered number back gives the number |
| Numerals.DecimalInjective | src/components/ReactGrid.tsx:18-22 | distinct numbers render as distinct strings |
| RowEdits.SeedRow | src/components/ReactGrid.tsx:18-23 | the `Array.from` callback for index i; it has no contract of its own, and InitialData, InitialDepartment and InitialNamesDistinct state its id, flag, department number and distinct names |
| RowEdits.InitialData | src/components/ReactGrid.tsx:17-24 | the seed has 100 rows, row i has id i + 1 and is not selected, the ids are pairwise distinct, and no row is selected |
| RowEdits.InitialDepartment | src/components/ReactGrid.tsx:21 | seed row i's department is the label followed by the decimal number (i % 10) + 1, which lies in 1..10 |
| RowEdits.InitialNamesDistinct | src/components/ReactGrid.tsx:19 | two different seed rows have different names |
| RowEdits.NewRow | src/components/ReactGrid.tsx:40-47 | the `newRow` literal with the clock reading as its id; it has no contract of its own, and AddRow states that the appended row is exactly this row, with id `now` and not selected |
| RowEdits.AddRow | src/components/ReactGrid.tsx:39-49 | the result is the old list unchanged plus exactly the new row at the end, whose id is the clock reading and which is not selected; the selected rows are the same as before |
| RowEdits.AddRowUniqueIds | src/components/ReactGrid.tsx:41-48 | after adding, the ids are unique exactly when they were unique before and no row already carried the clock reading |
| RowEdits.Delete | src/components/ReactGrid.tsx:84-86 | no row with the id is left; a row is in the result exactly when it was in the list and has another id; the list does not grow |
| RowEdits.DeleteMultiset | src/components/ReactGrid.tsx:85 | every copy of every row with the id is removed, and every copy of every other row is kept |
| RowEdits.DeleteConcat | src/components/ReactGrid.tsx:85 | deleting works piecewise on a concatenation, so the remaining rows keep their order |
| RowEdits.DeleteUnchangedIff | src/components/ReactGrid.tsx:85 | deleting leaves the list unchanged if and only if no row carries the id |
| RowEdits.DeleteIdempotent | src/components/ReactGrid.tsx:85 | deleting the same id twice is the same as deleting it once |
| RowEdits.DeleteUniqueIds | src/components/ReactGrid.tsx:85 | deleting from a list with unique ids leaves the ids unique |
| RowEdits.DeleteAddedRow | src/components/ReactGrid.tsx:39-86 | deleting the id of a freshly added row removes that row and every older row with the same id; with no older row carrying it, deleting gives back the list from before the add |
| RowEdits.Update | src/components/ReactGrid.tsx:88-90 | the length is kept and rows with another id are unchanged; a row with the id has `value` in column `key`, its other columns, id and flag unchanged |
| RowEdits.UpdateIdempotent | src/components/ReactGrid.tsx:89 | repeating the same edit changes nothing more |
| RowEdits.UpdateConcat | src/components/ReactGrid.tsx:89 | editing works piecewise on a concatenation |
| RowEdits.UpdateUniqueIds | src/components/ReactGrid.tsx:89 | after editing, the ids are unique exactly when they were before |
| RowEdits.DeleteAfterUpdate | src/components/ReactGrid.tsx:84-90 | deleting and editing commute: editing keeps every id |
| RowEdits.Falsy | src/components/ReactGrid.tsx:93 | `!id` for an optional number: absent or 0; it has no contract of its own, and Select and Grid.UserTable.HandleSelect state that a falsy id leaves the list unchanged |
| RowEdits.Select | src/components/ReactGrid.tsx:92-95 | an absent or zero id leaves the list unchanged; otherwise the length is kept, every row is unchanged apart from its flag, and the flag flips exactly on the rows with the id |
| RowEdits.SelectTwice | src/components/ReactGrid.tsx:92-95 | toggling the same id twice gives back the original list |
| RowEdits.SelectUniqueIds | src/components/ReactGrid.tsx:94 | after toggling, the ids are unique exactly when they were before |
| RowEdits.SelectConcat | src/components/ReactGrid.tsx:94 | toggling works piecewise on a concatenation |
| RowEdits.DeleteAfterSelect | src/components/ReactGrid.tsx:84-95 | deleting and toggling commute: toggling keeps every id, so a later delete removes the same rows |
| RowMoves.SelectedIndexes | src/components/ReactGrid.tsx:54-56 | the index list is no longer than the list, and each index in it is in range and addresses a selected row |
| RowMoves.SelectedIndexesSound | src/components/ReactGrid.tsx:54-56 | the computed index list holds exactly the indexes of the selected rows, in ascending order, with no selected row before, between or after them |
| RowMoves.IndexesComplete | src/components/ReactGrid.tsx:54-56 | every selected row's index is in that list |
| RowMoves.MoveRows | src/components/ReactGrid.tsx:51-81 | `moveRow` returns the closed form of the move for its direction, which has the same length and the same rows as the input; an empty list comes back unchanged |
| RowMoves.MoveUp | src/components/ReactGrid.tsx:58-63 | the ascending swap loop over the precomputed indexes produces the upward pass `MovedUp` |
| RowMoves.MoveDown | src/components/ReactGrid.tsx:64-69 | the descending swap loop over the precomputed indexes produces the downward pass `MovedDown` |
| RowMoves.MoveToTop | src/components/ReactGrid.tsx:70-74 | the ascending splice-and-unshift loop produces the reversed selected rows followed by the unselected rows |
| RowMoves.MoveToBottom | src/components/ReactGrid.tsx:75-79 | the descending splice-and-push loop produces the unselected rows followed by the reversed selected rows |
| RowMoves.UpLoopStep | src/components/ReactGrid.tsx:59-62 | at each turn of `up`, the index is in range and, when it is not 0, still addresses its original row; a turn for index 0 changes nothing; a swap keeps the loop state |
| RowMoves.DownLoopStep | src/components/ReactGrid.tsx:65-68 | at each turn of `down`, the index is in range and, when it is not the last, still addresses its original row; a turn for the last index changes nothing; a swap keeps the loop state |
| RowMoves.TopLoopStep | src/components/ReactGrid.tsx:71-73 | at each turn of `top`, the index still addresses its original row in the partly rearranged list, and the splice and unshift keep the loop state |
| RowMoves.BottomLoopStep | src/components/ReactGrid.tsx:76-78 | at each turn of `bottom`, the index still addresses its original row in the partly rearranged list, and the splice and push keep the loop state |
| RowMoves.UpLoopDone | src/components/ReactGrid.tsx:59-63 | once every index is handled, the list is the upward pass |
| RowMoves.DownLoopDone | src/components/ReactGrid.tsx:65-69 | once every index is handled, the list is the downward pass |
| RowMoves.TopLoopDone | src/components/ReactGrid.tsx:71-74 | once every index is handled, the list is the `top` layout |
| RowMoves.BottomLoopDone | src/components/ReactGrid.tsx:76-79 | once every index is handled, the list is the `bottom` layout |
| RowMoves.MovedPermutation | src/components/ReactGrid.tsx:52-81 | for every direction the result has the input's length and the same multiset of rows |
| RowMoves.MovedUniqueIds | src/components/ReactGrid.tsx:52-81 | for every direction the ids are unique after the move exactly when they were before |
| RowMoves.NothingSelectedNothingMoves | src/components/ReactGrid.tsx:52-81 | with no row selected, no direction changes the list |
| RowMoves.MovedUpLiftsSelected | src/components/ReactGrid.tsx:58-63 | under `up`, every selected row at an index i > 0 ends up at index i - 1 |
| RowMoves.MovedUpKeepsOrder | src/components/ReactGrid.tsx:58-63 | under `up`, the unselected rows keep their relative order; the selected rows keep theirs too when the first row is not selected |
| RowMoves.MovedUpSwapsLeadingPair | src/components/ReactGrid.tsx:58-63 | under `up`, with the first two rows both selected and distinct, the second ends up first, so the selected rows change order |
| RowMoves.MovedDownLowersSelected | src/components/ReactGrid.tsx:64-69 | under `down`, every selected row at an index i < n - 1 ends up at index i + 1 |
| RowMoves.MovedDownKeepsOrder | src/components/ReactGrid.tsx:64-69 | under `down`, the unselected rows keep their relative order; the selected rows keep theirs too when the last row is not selected |
| RowMoves.MovedDownMirrorsUp | src/components/ReactGrid.tsx:58-69 | `down` is `up` applied to the list read backwards |
| RowMoves.MovedToTopLayout | src/components/ReactGrid.tsx:70-74 | under `top`, the k selected rows fill positions 0..k-1 in reverse of their original order, and the unselected rows follow in their original order |
| RowMoves.MovedToBottomLayout | src/components/ReactGrid.tsx:75-79 | under `bottom`, the k selected rows fill the last k positions in reverse of their original order, and the unselected rows keep their order ahead of them |
| RowMoves.MovedToTopTwice | src/components/ReactGrid.tsx:70-74 | a second `top` restores the selected rows' original order |
| Grid.UserTable.constructor | src/components/ReactGrid.tsx:27-33 | the form starts from the seed: 100 rows, none selected, unique ids |
| Grid.UserTable.AddRow | src/components/ReactGrid.tsx:39-49 | `data` becomes the old rows plus the new row, and stays unique exactly when the clock reading is a fresh id |
| Grid.UserTable.MoveRow | src/components/ReactGrid.tsx:51-82 | `data` becomes the move's closed form, a rearrangement of the old rows that keeps uniqueness as it was |
| Grid.UserTable.HandleDelete | src/components/ReactGrid.tsx:84-86 | `data` loses every row with the id and keeps unique ids unique |
| Grid.UserTable.HandleUpdate | src/components/ReactGrid.tsx:88-90 | `data` becomes the edited list, of the same length, and keeps uniqueness as it was |
| Grid.UserTable.HandleSelect | src/components/ReactGrid.tsx:92-95 | `data` becomes the toggled list, is unchanged for a falsy id, and keeps uniqueness as it was |

## Left out

- Rendering, the column and cell definitions, and the JSX form (`src/components/ReactGrid.tsx:102-195`): user interface with no list logic.
- `saveData` (`src/components/ReactGrid.tsx:97-100`): it only prints the form as JSON and shows an alert.
- The form's `title` and `description` values (`src/components/ReactGrid.tsx:29-30`): no handler in the grid changes them.
- The behaviour of `useForm`, `watch` and `setValue` is not modelled. `data` is a plain field, and `setValue` is an assignment to it.
- The `watch("data") || []` fallback and the `!Array.isArray(data)` guard are not modelled. `data` is always a list here, so neither can fire.
- `Date.now()`: the clock is replaced by the parameter `now`, so any id, fresh or not, can be passed in.
- Row ids are modelled as unbounded integers rather than JavaScript doubles. `NaN` and fractional ids are not represented.
- RowEdits.Update: `key` ranges over the four text columns only. Writing a string into `id` or `selected`, which the TypeScript signature allows, is not modelled.
- RowEdits.Select: a falsy id is an absent id or 0. `NaN` is not represented.
- RowMoves.MoveDown: `selectedIndexes.reverse()` reverses the index array in place before the loop runs. The method visits the same indexes in descending order instead and does not model the mutation of that array.
- RowMoves.MoveToBottom: `reverse()` is handled the same way as in MoveDown.
- RowMoves.MoveRows: `newData` is a local sequence rather than a copy of a JavaScript array, and `splice`, `unshift` and `push` are written as sequence slicing and concatenation.
- The board components, the router and the build configuration are not part of this model: they are network calls and user-interface wiring.
