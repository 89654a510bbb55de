# Canteen meal ordering: cutoff gate, selection toggle and form state machines

A Dafny model of the client-side logic of a canteen meal-ordering web app.
Employees pick meal items for tomorrow until 21:00 local time. Administrators
curate tomorrow's menu. The model covers:

- the **selection-cutoff gate** (`Cutoff`): today's cutoff, the strict
  "passed" test and the hours/minutes/seconds countdown;
- the **dashboard handlers** (`Dashboard`): toggling a meal selection,
  adding/updating/deleting menu items and grouping items by meal type. Each
  handler is a pure function from the table before a write to the table after
  it. The module also holds the page's lock banner and disabled flags, and the
  wiring from a card click or a form submit to the handlers;
- the **meal card** (`MealCard`): the per-item status lookup, and one button
  per item that carries the card's `disabled` flag;
- the **countdown badge** (`Countdown`): its state, the one-second tick as a
  state replacement, and the `HH:MM:SS` / "Selection Closed" rendering;
- the **inline item editor** (`EditableItem`) and the **add-item form**
  (`AddItemBar`) as state machines with pure step functions;
- supporting modules: the table row types (`Records`), ECMAScript `trim`,
  `String(n)` for integers below 10^21 and `padStart(2, '0')` (`Text`), `filter` (`Seqs`) and `Option`
  (`Wrappers`).

The ambient clock is an argument: milliseconds since local midnight
(`Cutoff.MsOfDay`, 0 to 86,399,999), so the cutoff is 75,600,000. The
signed-in user, tomorrow's date string, and the id and timestamp the backend
or clock supplies for a write are arguments too (`Dashboard.Env`,
`Dashboard.Issued`). Every gate operation is a pure function of the clock
value, so two evaluations at the same millisecond agree.

The countdown floors to whole seconds, so during the last second before the
cutoff it shows (0, 0, 0) while the gate is still open
(`Cutoff.LastSecondShowsZero`).

## Model

| member | source | states |
|---|---|---|
| Cutoff.CutoffTime | src/utils/dateUtils.ts:11-15 | The cutoff is 21:00:00.000 today: whole hour 21 with no minutes, seconds or milliseconds, i.e. 75,600,000 ms after midnight |
| Cutoff.IsCutoffPassed | src/utils/dateUtils.ts:17-19 | The gate is closed exactly when the clock is in hour 21 or later and is not exactly 21:00:00.000 |
| Cutoff.CutoffBoundary | src/utils/dateUtils.ts:17-19 | The gate is strict: not passed at exactly 21:00:00.000 (and the countdown there is 0,0,0), passed at 21:00:00.001 |
| Cutoff.GateOneWay | src/utils/dateUtils.ts:17-19 | Within a day the gate only goes from open to closed: once passed at some instant it is passed at every later one |
| Cutoff.Split | src/utils/dateUtils.ts:29-32 | The three divisions give the floor decomposition: minutes and seconds below 60, and h·3,600,000 + m·60,000 + s·1,000 ≤ diff < that + 1,000 |
| Cutoff.TimeUntilCutoff | src/utils/dateUtils.ts:21-35 | Exactly (0,0,0) once the cutoff has passed; otherwise the floor decomposition of cutoff − now; always hours ≤ 21, minutes ≤ 59, seconds ≤ 59 |
| Cutoff.SplitUnique | src/utils/dateUtils.ts:29-32 | Any triple that is a floor decomposition of diff equals the computed one, so the result never rounds |
| Cutoff.SplitTotalSeconds | src/utils/dateUtils.ts:29-32 | h·3600 + m·60 + s equals the whole seconds in diff (floor of diff / 1000) |
| Cutoff.TimeUntilCutoffMonotone | src/utils/dateUtils.ts:21-35 | For earlier ≤ later on the same day the remaining total seconds at the earlier instant is ≥ that at the later one |
| Cutoff.ThreeThousandSixHundredSixtyOneSeconds | src/utils/dateUtils.ts:29-34 | A diff of 3,661,000 ms yields (1,1,1), also as the countdown 3,661 s before the cutoff |
| Cutoff.LastSecondShowsZero | src/utils/dateUtils.ts:17-34 | In the last second before the cutoff the gate is open yet the countdown is (0,0,0); earlier than that the total is positive |
| Text.TrimStart | src/components/ui/EditableItem.tsx:17-18 | Drops exactly the leading whitespace: the result is a suffix, all that was dropped is whitespace, and it does not start with whitespace |
| Text.TrimEnd | src/components/ui/EditableItem.tsx:17-18 | Drops exactly the trailing whitespace: the result is a prefix, all that was dropped is whitespace, and it does not end with whitespace |
| Text.Trim | src/components/ui/EditableItem.tsx:17-18 | `trim` returns a slice of the input with whitespace only on either side of it, and neither end of the result is whitespace |
| Text.TrimEmptyIffBlank | src/components/admin/AddItemBar.tsx:16 | A name trims to the empty (falsy) string exactly when it consists only of whitespace |
| Text.TrimOfTrimmed | src/components/admin/AddItemBar.tsx:16-17 | A string with no whitespace at either end is its own trim |
| Text.TrimIdempotent | src/components/admin/AddItemBar.tsx:16-17 | Trimming twice equals trimming once |
| Text.NatToString | src/components/ui/Countdown.tsx:31 | `String(n)`, for the range below 10^21 where JavaScript prints plain digits, is one or more decimal digits, starting with '0' only for 0, one digit exactly below 10 and two exactly from 10 to 99 |
| Text.NatToStringRoundTrip | src/components/ui/Countdown.tsx:31 | Reading the digits of `NatToString(n)` back gives n |
| Text.PadStart2 | src/components/ui/Countdown.tsx:31 | `padStart(2,'0')` prefixes one '0' to values 0–9 and leaves values ≥ 10 as their plain digits |
| Text.PadStart2Facts | src/components/ui/Countdown.tsx:31 | A padded field is all digits, at least two wide, exactly two wide iff below 100, and reads back as its value |
| Countdown.Read | src/components/ui/Countdown.tsx:6-13 | A fresh reading: `isPassed` is the gate at its read; when the clock does not go back, an open gate comes with the exact floor decomposition of the time left, and a closed one with (0,0,0) if the two reads are under a second apart |
| Countdown.Init | src/components/ui/Countdown.tsx:6-7 | The initial `timeLeft` is the countdown at the first read and `isPassed` is the gate at the second |
| Countdown.Tick | src/components/ui/Countdown.tsx:10-13 | Each tick sets `timeLeft` to the countdown at its first read and `isPassed` to the gate at its second |
| Countdown.FormatTime | src/components/ui/Countdown.tsx:31 | For hours, minutes and seconds below 10^21 (every countdown value) the text has colons right after the padded hours and the padded minutes, and the three digit fields between them read back as the hours, minutes and seconds |
| Countdown.Render | src/components/ui/Countdown.tsx:18-35 | The badge text is "Selection Closed" exactly when `isPassed`; otherwise it is the time text of the state's `timeLeft`, which starts with a digit |
| Countdown.FormatTimeLayout | src/components/ui/Countdown.tsx:31 | For hours below 100 and minutes and seconds below 60 the text is pad(h) ":" pad(m) ":" pad(s): 8 characters, colons at 2 and 5, each field reading back as its value |
| Countdown.RenderReading | src/components/ui/Countdown.tsx:6-35 | A reading renders the closed text iff the gate read says the cutoff has passed; otherwise, when the clock does not go back between the two reads, it renders `HH:MM:SS` whose fields read back as the countdown's hours, minutes and seconds at the first read |
| Countdown.TickForgets | src/components/ui/Countdown.tsx:9-13 | A tick's new state depends on the clock only and equals a fresh initial state; nothing else is kept |
| MealCard.FindSelection | src/components/employee/MealCard.tsx:16 | `find` returns the first row whose menu_item_id matches, and nothing exactly when no row matches |
| MealCard.FirstMatchUnique | src/components/employee/MealCard.tsx:16 | There is only one first matching row |
| MealCard.SelectionStatus | src/components/employee/MealCard.tsx:15-18 | Status is false when no selection has the item's id, and otherwise is_selected of the first selection that has it |
| MealCard.StatusFromOwnRows | src/components/employee/MealCard.tsx:15-18 | Status is is_selected of the first of the item's own rows, false if it has none |
| MealCard.StatusIsLocal | src/components/employee/MealCard.tsx:16 | Two tables with the same rows for an item give it the same status, whatever rows they hold for other items |
| MealCard.Button | src/components/employee/MealCard.tsx:33-39 | An item's button carries the item's id, name and description, the item's status in the selections (false when it has no row) and the card's `disabled` flag |
| MealCard.Render | src/components/employee/MealCard.tsx:20-44 | The empty message exactly when there are no items; otherwise one button per item in order, with that item's status and the card's `disabled` flag |
| MealCard.Click | src/components/employee/MealCard.tsx:38-39 | A disabled button delivers no click; an enabled one requests the toggle with (item.id, its shown status) |
| EditableItem.Init | src/components/ui/EditableItem.tsx:12-14 | Initially not editing, with the drafts equal to the props |
| EditableItem.Save | src/components/ui/EditableItem.tsx:16-21 | An all-whitespace name makes no `onSave` call and changes no state (editing continues); any other name calls `onSave(trim(name), trim(description))`, possibly with an empty description, and leaves editing with the drafts as typed; a saved name is never empty and is trimmed |
| EditableItem.Cancel | src/components/ui/EditableItem.tsx:23-27 | Cancel restores both drafts to the props and leaves editing, without calling `onSave` |
| EditableItem.StartEdit | src/components/ui/EditableItem.tsx:75 | The edit button turns editing on and leaves both drafts alone |
| EditableItem.ChangeName | src/components/ui/EditableItem.tsx:35 | Typing in the name input sets the name draft to the input's value and changes nothing else |
| EditableItem.ChangeDescription | src/components/ui/EditableItem.tsx:43 | Typing in the description input sets the description draft to the input's value and changes nothing else |
| EditableItem.EditTypeCancel | src/components/ui/EditableItem.tsx:23-27 | Editing, typing anything and cancelling returns to the initial state with no call |
| EditableItem.EditThenSave | src/components/ui/EditableItem.tsx:16-19 | Saving right after opening the editor saves the trimmed props, provided the name is not blank |
| AddItemBar.Init | src/components/admin/AddItemBar.tsx:10-12 | Initially collapsed with empty name and description |
| AddItemBar.Submit | src/components/admin/AddItemBar.tsx:14-22 | An all-whitespace name leaves the state unchanged and calls nothing; any other name calls `onAdd(trim(name), trim(description))` and returns to the collapsed empty form; the name passed is non-empty and its own trim |
| AddItemBar.Cancel | src/components/admin/AddItemBar.tsx:62-67 | Cancel clears both fields and collapses without calling `onAdd` |
| AddItemBar.Expand | src/components/admin/AddItemBar.tsx:27 | The expand button opens the form and keeps both fields |
| AddItemBar.ChangeName | src/components/admin/AddItemBar.tsx:41 | Typing in the name input sets the name to the input's value and changes nothing else |
| AddItemBar.ChangeDescription | src/components/admin/AddItemBar.tsx:50 | Typing in the description input sets the description to the input's value and changes nothing else |
| AddItemBar.SubmitResets | src/components/admin/AddItemBar.tsx:14-22 | Expanding, typing a non-blank name and submitting always returns to the initial form |
| Seqs.Filter | src/pages/UnifiedDashboard.tsx:143-145 | `filter` keeps exactly the elements satisfying the predicate and adds none |
| Seqs.FilterConcat | src/pages/UnifiedDashboard.tsx:143-145 | Filtering distributes over concatenation, which fixes the order of the result |
| Seqs.FilterSingleton | src/pages/UnifiedDashboard.tsx:143-145 | A one-element sequence is kept when the element satisfies the predicate and is dropped otherwise |
| Seqs.FilterAll | src/pages/UnifiedDashboard.tsx:143-145 | Filtering with a predicate every element satisfies returns the input |
| Dashboard.IsAdmin | src/pages/UnifiedDashboard.tsx:20 | Nobody without a profile is an administrator; with a profile, exactly those whose role is admin |
| Dashboard.SetSelected | src/pages/UnifiedDashboard.tsx:70-73 | Every row with the given id, and only those, gets the new is_selected and updated_at; rows keep their positions and the table its length |
| Dashboard.NewSelection | src/pages/UnifiedDashboard.tsx:77-84 | The inserted row is the signed-in user's, for the given item and tomorrow, selected, with the backend's id and stamps |
| Dashboard.ToggleSelection | src/pages/UnifiedDashboard.tsx:63-89 | No write when the cutoff has passed or nobody is signed in; else, if the item has a row, the first such row gets is_selected = !currentValue and only rows sharing its id change; else one selected row for the user, the item and tomorrow is appended to the unchanged table |
| Dashboard.ToggleChangesOnlyFirstRow | src/pages/UnifiedDashboard.tsx:67-75 | With unique row ids only the first row for the item changes, and only its is_selected (to !currentValue) and updated_at |
| Dashboard.ToggleKeepsIdsUnique | src/pages/UnifiedDashboard.tsx:67-86 | The toggle keeps row ids unique when the new row's id is not already taken |
| Dashboard.ToggleNegatesOnlyThatItem | src/pages/UnifiedDashboard.tsx:63-89 | With the gate open and a user signed in, toggling an item with its current status negates that item's status and keeps every other item's status |
| Dashboard.ToggleExistingRow | src/pages/UnifiedDashboard.tsx:67-75 | The update branch of the negation theorem |
| Dashboard.ToggleNewRow | src/pages/UnifiedDashboard.tsx:76-86 | The insert branch of the negation theorem: the appended selected row becomes the item's first row, and other items' first rows stay |
| Dashboard.SameItemColumnSameFirst | src/pages/UnifiedDashboard.tsx:67 | Tables whose rows name the same items position by position have the same first match for every item |
| Dashboard.AddMenuItem | src/pages/UnifiedDashboard.tsx:95-106 | No write without a user; otherwise the existing rows are kept and one item is appended with the given name, description and meal type, tomorrow's date and created_by = the user |
| Dashboard.UpdateMenuItem | src/pages/UnifiedDashboard.tsx:115-120 | Rows with the given id get the new name and description and nothing else changes in them; all other rows are untouched; ids, meal types and dates are kept |
| Dashboard.DeleteMenuItem | src/pages/UnifiedDashboard.tsx:129-134 | No row with the id remains, every other row remains, and nothing new appears |
| Dashboard.ItemsByMealType | src/pages/UnifiedDashboard.tsx:143-145 | Returns items of that meal type only, and all of them |
| Dashboard.DeleteAbsent | src/pages/UnifiedDashboard.tsx:129-134 | Deleting an id that no row has leaves the table unchanged |
| Dashboard.DeleteCons | src/pages/UnifiedDashboard.tsx:129-134 | A delete keeps the first row exactly when its id differs and then deletes from the rest, so kept rows stay in table order |
| Dashboard.DeleteRemovesAtMostOne | src/pages/UnifiedDashboard.tsx:129-134 | With unique ids a delete removes at most one row |
| Dashboard.AddedItemListedUnderItsType | src/pages/UnifiedDashboard.tsx:95-106 | After an add, the new item is appended to its own meal type's list and the other lists are unchanged, in the model's table order |
| Dashboard.UpdateKeepsLists | src/pages/UnifiedDashboard.tsx:115-120 | Listing a meal type after an update gives the old list with the same update applied, so no item changes list, position or count |
| Dashboard.UpdateCons | src/pages/UnifiedDashboard.tsx:115-120 | An update of x followed by rest is x, updated if its id matches, followed by the update of rest |
| Dashboard.ItemsByMealTypeCons | src/pages/UnifiedDashboard.tsx:143-145 | A meal type's list of x followed by rest is x (if of that type) followed by the list of rest |
| Dashboard.MealTypesPartition | src/pages/UnifiedDashboard.tsx:143-145 | The breakfast, lunch and snacks lists together hold every menu item exactly once |
| Dashboard.EmployeeCards | src/pages/UnifiedDashboard.tsx:219-240 | Three cards, card k being the meal card over the items of the k-th meal type (breakfast, lunch, snacks) with the selections and the gate reading as `disabled`; so every button is disabled exactly when the cutoff has passed, and a card shows the empty message exactly when its meal type has no items |
| Dashboard.Render | src/pages/UnifiedDashboard.tsx:183-243 | Administrators, and only they, get the three lists, list k being exactly the items of the k-th meal type; everybody else gets exactly the employee cards, with the lock banner shown exactly when the cutoff has passed |
| Dashboard.ClickThenToggle | src/components/employee/MealCard.tsx:38 | A click on a card rendered after the cutoff does nothing; before it, the click requests (item.id, status); if the gate is still open and a user is signed in when the toggle runs, that item's status flips and every other item's is kept; otherwise no row changes |
| Dashboard.SaveUpdatesItem | src/components/admin/MenuList.tsx:26 | Saving an editor whose name is not blank gives the item's rows the trimmed name, which is non-empty, and leaves every other row alone |
| Dashboard.SubmitAddsItem | src/components/admin/MenuList.tsx:35 | Submitting an add form whose name is not blank, with a user signed in, appends one item at the end of the form's meal type list (in the model's table order), named with the trimmed name, which is non-empty |

## Left out

- The backend client set-up and the environment-variable check (src/lib/supabase.ts:1-10): configuration and I/O. Only the row types are modelled.
- Loading (`loadMenuItems`, `loadSelections`), the reload after each write, and the `loading` screen: these are backend queries. The selections list is taken to be the user's rows for tomorrow as last loaded. Rows the toggle writes carry the user's id and tomorrow's date, so a reload still shows them.
- The order of the menu after a reload: `loadMenuItems` orders only by `meal_type` (src/pages/UnifiedDashboard.tsx:36), so the order within one meal type is whatever the backend returns. The model appends a new item at the end of the table; that it then appears last in its list holds of the model's sequence, not necessarily of the page after a reload.
- The order of the selections after a reload: `loadSelections` asks for no order (src/pages/UnifiedDashboard.tsx:50-54), so which row `find` meets first can change after a reload. The model keeps the table order it wrote.
- Concurrent handlers: `handleToggleSelection` is asynchronous and reads the selections of the render that produced the click (src/pages/UnifiedDashboard.tsx:63-89). Two clicks on an item with no row, both before the reload, both insert (lines 76-86). The model runs the handlers one at a time, each on the table the previous one left, so the second click becomes an update.
- Failed writes, `setError` and `console.error`: these are network failures. A failed write leaves the table as it was and only shows a message, which is not modelled.
- `updated_at` on menu-item updates: the client does not set it, and any backend trigger is not part of this model.
- React rendering, styling, hooks, `useEffect` scheduling and the `setInterval`/`clearInterval` timer: these are UI and timing. A tick is a step at a given clock value.
- Separate clock reads within one render: the page calls `isCutoffPassed()` once per card and once for the banner, and `Dashboard.Render` uses one reading for all of them. The countdown's two reads are modelled (`Countdown.Read`).
- `formatDate`, `formatDateYMD`, `isToday` and the calendar rollover in `getTomorrowDate` (src/utils/dateUtils.ts:1-9, 37-51): these depend on locale, UTC and the JavaScript `Date` type. Tomorrow's date is an opaque string argument.
- Text.NatToString: JavaScript numbers are doubles, so integers above 2^53 are not exact, and `String(n)` switches to exponent form (`"1e+21"`) from 10^21 on. The model prints plain digits for every `nat`. No countdown field comes near either limit: `Cutoff.TimeUntilCutoff` bounds hours by 21 and minutes and seconds by 59.
- Floating point: `Math.floor(diff / k)` is modelled as integer division. For differences below one day the double-precision quotient never rounds across an integer.
- Daylight-saving transitions: the clock is milliseconds since local midnight, so a day always has 86,400,000 ms.
- SelectionsView, Header, Logo, Card and App: rendering and backend queries with no local logic. MenuList is used only for its wiring of `onSave` and `onAdd`.
- The labels in src/utils/constants.ts. Their display string '9:00 PM' (line 13) agrees with `Cutoff.CutoffHour` = 21.
- Mode guards: `EditableItem.Save` and `AddItemBar.Submit` do not check the mode. In the source these handlers are reachable only from the editing or expanded view, and they do not check the mode themselves.
