# Expiry tracker, modelled in Dafny

The tracker is one React component (`src/App.tsx`). It keeps a list of
items, each with an id, a name, an expiry date and notes. On start it reads
the list from the browser's local storage under the key `expiryItems`, and
writes the list back whenever it changes, but only after that first read. A
form adds items, and a delete button removes them. The list is shown sorted
by expiry date, and each row is highlighted by how many days are left.

The model is split into modules that follow the code:

- `Decimal` (decimal.dfy): digit strings. `Date.now().toString()` becomes
  `IntToString`, the decimal numeral of the timestamp. `StrLess` is
  lexicographic order on characters. It agrees with JavaScript's `<` on
  strings (which compares UTF-16 code units) on ASCII text, and it is only
  applied to date text, which is ASCII.
- `Dates` (dates.dfy): the `yyyy-mm-dd` text a date input produces.
  `DayNumber` counts days, and `TimeValue` is `new Date(text).getTime()`,
  which is midnight UTC of that day in milliseconds.
- `Items` (items.dfy): the `Item` record, the timestamp id and
  `items.filter(item => item.id !== id)`.
- `ItemStyle` (style.dfy): `getItemStyle`, given the whole days left.
- `StableSort` (stable.dfy): what a stable `Array.prototype.sort` with a
  consistent comparator promises. It holds an in-place insertion sort over
  an array proved to give exactly that result, and a proof that only one
  list keeps that promise.
- `ExpirySort` (sorting.dfy): the comparator at line 103 and the display
  order it gives.
- `Tracker` (tracker.dfy): class `App`. Its fields are the component's
  state (`items`, `name`, `expiryDate`, `notes`, `isLoaded`) and the storage
  it talks to. Its methods are the two effects, the form handlers, the delete
  button and the render.

`items` is an `array<Item>` field. `addItem`, `deleteItem` and the mount
effect each put a new array in state: spreading, filtering and parsing all
build a new array. The render's `items.sort(...)` reorders the array held in
state in place, and `Render` does the same through `StableSort.SortInPlace`.

The display sort is easy to read as a pure presentation step that leaves the
stored order alone. The code does not work that way. `sort` runs on the
state array itself during render, before the save effect runs, so the list
in state, and the list saved after it, end up in expiry order. The model
follows the code. `Tracker.App.Submit` states the result: after an accepted
submit, the list in state and in storage is `DisplayOrder` of the old list
with the new item appended. A rejected submit sets no state, so React
neither renders nor saves, and `Submit` changes nothing.

## Model

| member | source | states |
|---|---|---|
| `Decimal.NatToString` | src/App.tsx:36 | the numeral is non-empty and all digits, and starts with `0` only for zero |
| `Decimal.IntToString` | src/App.tsx:36 | the numeral is non-empty, with a leading `-` exactly for negative numbers |
| `Decimal.NatToStringRoundTrip` | src/App.tsx:36 | reading the digits of the numeral gives back the number |
| `Decimal.IntToStringInjective` | src/App.tsx:36 | two numbers with the same numeral are equal |
| `Items.TimestampId` | src/App.tsx:36 | a new item's id is the non-empty numeral of the timestamp |
| `Items.TimestampIdInjective` | src/App.tsx:36 | two ids are equal exactly when the timestamps are equal, so items made in different milliseconds have different ids |
| `Items.AppendKeepsUniqueIds` | src/App.tsx:35-41 | appending an item whose id no item has keeps ids unique |
| `Items.RemoveId` | src/App.tsx:49 | filtering never makes the list longer |
| `Items.RemoveIdMembers` | src/App.tsx:49 | an item survives the filter exactly when it was in the list and its id differs from the deleted id |
| `Items.RemoveIdConcat` | src/App.tsx:49 | filtering a concatenation filters each part and keeps them in order, so the order of the kept items never changes |
| `Items.RemoveIdAbsent` | src/App.tsx:48-50 | deleting an id that no item has leaves the list unchanged |
| `Items.RemoveIdIdempotent` | src/App.tsx:48-50 | deleting the same id twice is the same as deleting it once |
| `Items.RemoveIdUnique` | src/App.tsx:48-50 | with unique ids, deleting the id of item `i` removes exactly that item and keeps the rest in order |
| `Items.DeleteUndoesAppend` | src/App.tsx:41-49 | deleting the id of an item just appended, when no earlier item has that id, gives back the list from before the append |
| `ItemStyle.Classify` | src/App.tsx:52-57 | expired exactly when the days left are negative, expiring soon exactly when 0 to 6, normal exactly from 7 |
| `ItemStyle.GetItemStyle` | src/App.tsx:52-57 | `bg-red-100` exactly when the days left are negative, `bg-yellow-100` exactly when 0 to 6, empty exactly from 7 |
| `ItemStyle.ClassNameInjective` | src/App.tsx:54-56 | the three urgencies get three different classes |
| `ItemStyle.ClassifyMonotone` | src/App.tsx:53-56 | more days left never makes an item more urgent |
| `ItemStyle.ClassifyBoundaries` | src/App.tsx:54-55 | -1 is expired, 0 and 6 are expiring soon, 7 is normal |
| `Dates.DayNumber` | src/App.tsx:103 | the day number of a date lies within the days of its own year; its order is given by `Dates.DayNumberOrder` |
| `Dates.TimeValue` | src/App.tsx:103 | `new Date(text).getTime()` is a whole number of days in milliseconds, that is midnight UTC; its order is given by `Dates.TimeValueOrder` |
| `Dates.DayNumberAscends` | src/App.tsx:103 | an earlier calendar date has a smaller day number |
| `Dates.DayNumberOrder` | src/App.tsx:103 | the day number orders dates by year, then month, then day, and two dates have the same day number exactly when they are the same text |
| `Dates.TimeValueOrder` | src/App.tsx:103 | `getTime()` orders dates as the day number does |
| `Dates.DateBeforeIsTextOrder` | src/App.tsx:103 | for well-formed dates, calendar order is the order of the text under `<` |
| `Dates.DateOrderIsTextOrder` | src/App.tsx:103 | for well-formed dates, `getTime()` order is the order of the text under `<` |
| `ExpirySort.Compare` | src/App.tsx:103 | the comparator is positive exactly when the first item's expiry day is later, and zero exactly when both dates are the same text |
| `StableSort.Insert` | src/App.tsx:103 | one insertion step makes the list one longer; what it holds and where `x` lands are given by `StableSort.InsertPermutes`, `StableSort.InsertWithKey` and `StableSort.InsertAt` |
| `StableSort.SortBy` | src/App.tsx:103 | the sort keeps the length; its meaning is given by `StableSort.SortByCharacterised` |
| `StableSort.InsertPermutes` | src/App.tsx:103 | one insertion step adds the element and loses nothing |
| `StableSort.SortByPermutes` | src/App.tsx:103 | the sort's result is a permutation of its input |
| `StableSort.InsertSorted` | src/App.tsx:103 | inserting into a list in key order keeps it in key order |
| `StableSort.SortBySorted` | src/App.tsx:103 | the sort's result is in non-decreasing key order |
| `StableSort.InsertWithKey` | src/App.tsx:103 | an inserted element lands after every element with the same key |
| `StableSort.SortByStable` | src/App.tsx:103 | for every key, the elements with that key come out in the order they went in |
| `StableSort.InWithKey` | src/App.tsx:103 | an element is among those with key `k` exactly when it is in the list and has key `k` |
| `StableSort.StableSortUnique` | src/App.tsx:103 | two lists in key order that agree, key by key, on their elements in order are equal |
| `StableSort.SortByCharacterised` | src/App.tsx:103 | a list is the sort's result exactly when it is in key order and a stable rearrangement of the input |
| `StableSort.SortedIsFixed` | src/App.tsx:103 | a list already in key order is left as it is |
| `StableSort.SortByIdempotent` | src/App.tsx:103 | sorting twice is the same as sorting once |
| `StableSort.InsertAt` | src/App.tsx:103 | insertion places the element right after the last element whose key is not larger |
| `StableSort.InsertLast` | src/App.tsx:103 | one pass in place: the first `i + 1` cells become the insertion of cell `i` into the cells before it, and the later cells do not change |
| `StableSort.SortInPlace` | src/App.tsx:103 | the array's new contents are the stable sort of its old contents |
| `ExpirySort.DisplayOrder` | src/App.tsx:103 | the list as shown holds the same items as the list in state; order and stability are given by `ExpirySort.DisplayOrderSpec` |
| `ExpirySort.DisplayOrderSpec` | src/App.tsx:103 | the displayed list holds the same items, is in expiry order and keeps the order of items that expire on the same day |
| `ExpirySort.DisplayOrderIsTextOrder` | src/App.tsx:103 | with well-formed dates, no later row's date text is smaller under `<` than an earlier row's |
| `ExpirySort.ExampleDates` | src/App.tsx:103 | 2025-01-05, 2025-02-20 and 2025-03-10 are calendar dates, and their day numbers increase in that order |
| `ExpirySort.ThreeDatesExample` | src/App.tsx:103 | items dated 2025-03-10, 2025-01-05 and 2025-02-20, in that order, are shown as 2025-01-05, 2025-02-20, 2025-03-10 |
| `Tracker.Rows` | src/App.tsx:103-104 | one row per item, in the list's order, with the class that the item's days left call for |
| `Tracker.NewArray` | src/App.tsx:21 | a new array, shared with nothing, holding exactly the given list; spreading (line 41), filtering (line 49) and parsing (line 21) each build one |
| `Tracker.App.constructor` | src/App.tsx:12-16 | the first state has an empty list, an empty form, is not loaded, and the storage is left as it was |
| `Tracker.App.Hydrate` | src/App.tsx:18-24 | with a stored list the state takes a new array holding it, without one the list stays; either way the state becomes loaded, and nothing else changes |
| `Tracker.App.Save` | src/App.tsx:26-30 | once loaded, storage maps `expiryItems` to the current list and keeps its other keys; before that, storage is untouched; the loaded flag never changes |
| `Tracker.App.SetName` | src/App.tsx:73 | only the name field changes, to the typed value |
| `Tracker.App.SetExpiryDate` | src/App.tsx:84 | only the date field changes, to the typed value |
| `Tracker.App.SetNotes` | src/App.tsx:94 | only the notes field changes, to the typed value |
| `Tracker.App.AddItem` | src/App.tsx:32-46 | with a name and a date, the list becomes a new array with exactly one item appended, whose id is the timestamp's numeral and whose fields are the form's, and the form is cleared; otherwise the list and the form are unchanged; the loaded flag and the storage never change |
| `Tracker.App.DeleteItem` | src/App.tsx:48-50 | the list becomes a new array holding the filtered old list; nothing else changes |
| `Tracker.App.Render` | src/App.tsx:59-104 | before loading it shows the loading notice and leaves the list alone; after loading it sorts the state's own array into display order and shows the form values and the rows of the sorted list |
| `Tracker.App.Submit` | src/App.tsx:26-46 | an accepted submit, followed by the render and the save effect, leaves the display order of the old list with the new item appended both in state and under `expiryItems` in storage, and clears the form; a rejected one changes nothing: the same array with the same contents, the same form, the same storage; the state stays loaded |

## Left out

- The markup: labels, layout classes, the heading, the button texts, the
  browser-side `required` attribute on the inputs, and `e.preventDefault()`.
  The handler's own check for a name and a date is modelled.
- The date formatting in each row (`format(parseISO(...), 'yyyy年MM月dd日')`).
- `differenceInDays(parseISO(expiryDate), new Date())`: the clock and the
  date library are outside the model. `Render` and `Rows` take the day count
  as a function `daysUntil` from the date text to whole days.
- `Date.now()`: the clock is the parameter `now` of `AddItem`. Ids are not
  claimed to be unique, because two submits in one millisecond share an id.
  The model proves only that different timestamps give different ids
  (`Items.TimestampIdInjective`), and that appending an item whose id is new
  keeps ids unique (`Items.AppendKeepsUniqueIds`).
- `JSON.stringify` and `JSON.parse`: storage is a map from keys to parsed
  lists. Writing and reading a list gives back that list.
- Stored text that is the empty string (which the mount effect treats as
  missing) is left out, because the tracker itself only ever stores a
  serialised array, which is never empty.
- Stored text that does not parse (where `JSON.parse` throws) is left out,
  as are storage quota errors.
- React's scheduling: the two effects are methods the caller runs at the
  points React would. StrictMode's doubled effects and the batching of
  several setters into one render are left out. `AddItem` applies its four
  updates together.
- `Tracker.App.Render`: requires every expiry date to be a well-formed
  `yyyy-mm-dd` calendar date. For any other text, `new Date(...)` gives
  either `NaN` or an engine-specific time value: ECMAScript leaves text
  outside its date format to each engine, and some engines accept
  `2025/01/05` or roll `2025-02-30` over to March. So the order then
  depends on the engine.
- `Tracker.App.Submit`: requires the state to be loaded and every date to
  be well-formed, or empty for the form field. This is for the same reason
  as `Render`.
- Dates with years outside 0000 to 9999, and the extended six-digit year
  form, are not well-formed in the model.
- The engine's sort algorithm: insertion sort stands for it. Any stable sort
  with a consistent comparator gives the same list
  (`StableSort.SortByCharacterised`). How many times the comparator is
  called is not modelled.
