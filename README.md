# gilfaztudo task store, modelled in Dafny

gilfaztudo is a React Native to-do app. Its data lives on the device in three
AsyncStorage keys. `@logs_task` holds the active tasks, `@logs_done` the
completed tasks and `@logs_category` the category names. Every handler reads a
whole collection, changes it in memory and writes the whole collection back.
Alongside the store sit the small formatters that render a task: the card
(`components/Task.js`), the details modal (`components/Details.js`), the
completed list (`components/DoneTasks.js`) and the creation form
(`components/CreateTask.js`).

The model has eight modules:

- `Seqs`: JavaScript's `filter`, removal of every copy of a value, and subsequences.
- `Sorting`: a stable sort by an integer key, as a function (`SortBy`) and as an
  in-place array insertion sort (`SortInPlace`) proved equal to it. It also
  proves that any sort which orders by the key and keeps ties in input order
  gives exactly `SortBy`'s result. That is why `SortBy` can stand for
  `Array.prototype.sort`, which is stable since the 2019 edition of ECMA-262.
- `Text`: `String.prototype.trim` over JavaScript's whitespace set, and
  `sliceStringByChars`.
- `Clock`: decimal numerals, the 12-hour "h:mm AM" text of `parseTime`, and the
  24-hour "H:MM" text of `formatTime`, each with a parser and a round-trip lemma.
- `Tasks`: the task record, the creation form and the building of a new task
  with its defaults and its "d/d/d" id.
- `Categories`: reading `@logs_category`, creating and deleting a category, and
  the pick-list of the creation form.
- `Display`: the card, details and completed-list renderings with their "Sem …"
  fallbacks.
- `Store`: the `TaskStore` class. Its fields are the two task collections, the
  stored category names and the Category component's in-memory list
  (`listOfCategory`). Each handler is a method. Each method's postcondition fixes
  the new state as a transition function of the old state (`Completed`,
  `Restored`, `PrioritySorted`, …), and the lemmas about the handlers are proved
  on those functions.

Two tasks are the same task exactly when all their fields are equal. This
stands for the app's comparison of `JSON.stringify` outputs. Removal is by
`filter`, so it removes every equal copy.

Some behaviours of the code are easy to miss; the model follows the code:

- Removing a task (mark done, delete, delete from done) drops every equal
  copy, not only the first.
- `createCategoryItem` does not reserve "Nenhuma Selecionada". Typing it stores
  it as an ordinary category (`Categories.AddCategoryStoresPlaceholder`). After
  that, the name shows in the delete list and the delete dialog refuses it.
- The delete dialog checks the component's list, not storage, and writes that
  list back. So the first successful delete after mounting drops a stored
  "Nenhuma Selecionada" (`Categories.RemoveAfterOpenDropsPlaceholder`).
- The category pick-list stays empty while `@logs_category` is absent. It does
  not filter out a stored placeholder.
- Restoring writes the active list first and clears the done list second. In
  between, the task is in both lists.
- "No task is both active and done" is kept by every operation except task
  creation. A new task can equal a done one, because ids are drawn from only
  1000 values. `Store.PartitionKept` states exactly when the property holds.

## Model

| member | source | states |
|---|---|---|
| Text.TrimSpec | components/Category.js:41 | The trimmed name is a slice of the input with only JavaScript whitespace cut from either end. It starts and ends with a non-space, and it is empty exactly when the input is blank. |
| Text.TrimEmptyIffBlank | components/Category.js:41-42 | The trimmed name is empty exactly when the input consists of whitespace only. |
| Text.TrimIdempotent | components/Category.js:41 | Trimming a trimmed name changes nothing. |
| Text.SliceByCharsSpec | components/Task.js:86-92 | A string longer than n becomes its first n characters plus "..." (length n + 3). Any other string is returned unchanged. |
| Text.SliceByCharsIdempotent | components/DoneTasks.js:19-25 | Truncating a truncated text changes nothing. |
| Text.ContentStart | components/Category.js:41 | The index of the first non-space character; everything before it is whitespace. |
| Text.ContentEnd | components/Category.js:41 | One past the last non-space character; everything after it is whitespace. |
| Clock.Decimal | components/CreateTask.js:80 | The template-literal text of a number is non-empty and made of digits. |
| Clock.DecimalRoundTrip | components/CreateTask.js:80 | The digits of a number read back to that number. |
| Clock.TwoDigitsSpec | components/Task.js:80 | Minutes below 100 render as exactly two digits that read back to the minutes. The first digit is "0" exactly when the minutes are below ten. |
| Clock.ClockTextRoundTrip | components/CreateTask.js:78-80 | "H:MM" reads back to the same hour and minutes. |
| Clock.Hour12 | components/Task.js:78-79 | The 12-hour dial value lies in 1..12 and agrees with the hour modulo 12, so 0 shows as 12. |
| Clock.TwelveHourRoundTrip | components/Task.js:71-83 | The 12-hour text determines the time of day: parsing it back gives the same hour and minute. |
| Clock.TwelveHourShape | components/Details.js:21-27 | The hour field lies in 1..12. The suffix is "PM" exactly for hours 12..23 and "AM" exactly for 0..11. The minutes have a leading "0" exactly when below ten. |
| Clock.FormatTimeSpec | components/CreateTask.js:75-81 | No time gives "Selecione a Hora". A time gives 24-hour "H:MM" text that reads back to it and is never the prompt. |
| Clock.DigitChar | components/CreateTask.js:125 | A digit renders as a digit character. |
| Tasks.IdRoundTrip | components/CreateTask.js:125 | An id is five characters "d/d/d" and reads back to its three digits, so there are exactly 1000 ids. |
| Tasks.IdsCollide | components/CreateTask.js:125 | Two creations that draw the same digits get the same id, whatever their forms. |
| Tasks.NewTaskDefaults | components/CreateTask.js:119-126 | An empty category becomes "Nenhuma Selecionada" and any other stays as chosen. No date becomes "Sem Data" and no time "Sem Horário", each exactly when unset. Description and priority are copied. The id reads back to the drawn digits. |
| Tasks.FormDefaults | components/CreateTask.js:136-143 | A task from the freshly mounted form (priority state starting at 2, line 14) gets priority 2. A task from the form after a create, reset to priority 1, gets priority 1. Either way the description is empty and the category, date and time are their placeholders, as the cleared fields give. |
| Categories.TextEntries | components/Category.js:20 | Keeping the string entries never yields more entries than the array had. |
| Categories.TextEntriesSpec | components/Category.js:20 | Reading keeps exactly the string entries, in their order, as a subsequence of the array. A name is read exactly when it was a string entry, and as many times as the array holds it. |
| Categories.LoadCategoriesSpec | components/Category.js:12-27 | An absent key or unparsable value reads as []. An array reads as its string entries, in order, each as often as the array holds it. |
| Categories.Encode | components/Category.js:33 | Storing writes one string entry per name, in order. |
| Categories.LoadAfterStore | components/Category.js:12-37 | Reading what was stored gives back exactly the stored names. |
| Categories.OpenedViewHasNoPlaceholder | components/Category.js:101-105 | After mounting, the deletable list has no "Nenhuma Selecionada" and is a subsequence of the stored names. |
| Categories.AddCategorySpec | components/Category.js:40-68 | The outcome is EmptyName exactly for a blank input, DuplicateName exactly for a trimmed name already stored, and Created otherwise. A rejection changes nothing. A creation appends the trimmed name, keeps the earlier names in place, and makes the view equal to storage. |
| Categories.AddCategoryKeepsUnique | components/Category.js:46-51 | A duplicate-free stored list stays duplicate-free after any create. |
| Categories.AddCategoryStoresPlaceholder | components/Category.js:41-54 | Creating "Nenhuma Selecionada" when it is not stored succeeds and puts it into both the stored list and the view. |
| Categories.RemoveCategorySpec | components/Category.js:71-89 | The outcome is ReservedName exactly for the placeholder, and NotFound exactly for "" or a name missing from the view; both change nothing. Otherwise every copy goes, the view shrinks, the other names keep their order and count, and storage equals the view. |
| Categories.RemoveCategoryKeepsUnique | components/Category.js:85 | A duplicate-free view stays duplicate-free after any delete. |
| Categories.RemoveAfterOpenDropsPlaceholder | components/Category.js:85-89 | A successful delete right after mounting stores the read names minus the placeholder minus the deleted name, so the placeholder does not remain stored. |
| Categories.RemoveUndoesAdd | components/Category.js:40-97 | Deleting a name just created (other than the placeholder) leaves storage and view equal to the stored list before the create. |
| Categories.PickListSpec | components/CreateTask.js:85-92 | With the key absent the pick-list is []. Otherwise it has one entry more than storage: "Nenhuma Selecionada" first, then a permutation of the stored names ordered by the comparison. |
| Sorting.SortByPermutes | components/SortData.js:47 | Sorting yields a permutation of the input, of the same length. |
| Sorting.SortBySorts | components/SortData.js:47 | The result is non-decreasing in the key. |
| Sorting.SortByStable | components/SortData.js:47 | For every key, the elements with that key appear in the result exactly as, and in the order, they appear in the input. |
| Sorting.SortBySortedIsIdentity | components/SortData.js:47 | An already sorted list is left exactly as it is. |
| Sorting.SortByIdempotent | components/SortData.js:45-49 | Sorting a sorted result changes nothing. |
| Sorting.SortedAndStableUnique | components/SortData.js:47 | Two lists sorted by one key, with the same elements per key in the same order, are equal. |
| Sorting.StableSortIsSortBy | components/SortData.js:31 | Any ordered, stable rearrangement of the input is exactly `SortBy`'s result. |
| Sorting.InsertAt | components/SortData.js:47 | One pass of the in-place sort inserts an element into the sorted prefix as `InsertBy` does and leaves the rest of the array alone. |
| Sorting.SortInPlace | components/SortData.js:47 | Sorting the array in place leaves it holding `SortBy` of its old contents. |
| Display.ParseTime | components/Task.js:71-83 | A result exists exactly for a stored time, and it is 12-hour text that reads back to that time. A stored non-time gives nothing. |
| Display.CardTextSpec | components/Task.js:159-174 | A blank category or description (the empty one included) shows "Sem Categoria" or "Sem Descrição". Any other shows truncated to 26 characters plus "...". Either way it is at most 29 characters. |
| Display.CardTimeSpec | components/Task.js:179-205 | The time line appears exactly under a set date. A stored time reads back from it, and an unset time shows "Sem horário". The date line is never empty and reads "Sem data" without a date. |
| Display.PriorityLabelsAgree | components/Details.js:72-74 | Priorities 1, 2 and 3 label the modal "Alta", "Média" and "Baixa", and the card shows the same word plus " Prioridade". Any other priority gets no modal label but the card says "Baixa Prioridade" (line 154 of components/Task.js). Distinct priorities that get a modal label get distinct ones. |
| Display.BlankShownDifferently | components/Details.js:67 | A blank, non-empty category or description shows the placeholder on the card but itself in the modal, which tests only for emptiness. |
| Display.DetailsLinesSpec | components/Details.js:40-93 | The category, description, date and time lines are never empty. An empty category or description shows "Sem Categoria" or "Sem Descrição", and any other is shown whole. An unset date shows "Sem Data". A stored time reads back from its line, and a non-time shows "Sem Horário". |
| Display.DetailsView | components/Details.js:35-37 | The modal shows the error text exactly when no task is selected. |
| Display.DoneRowSpec | components/DoneTasks.js:160 | An empty description shows "Sem Descrição". Any other, blank ones included, is truncated to 26 characters plus "...". Short descriptions stay whole, and the row is at most 29 characters. |
| Store.ReadTasks | components/DoneTasks.js:28-45 | An absent key reads as [] and a present one as its list. |
| Store.OpenedSpec | components/Task.js:37-56 | After mounting, absent task keys hold [], the stored categories are the string entries, and the deletable list lacks the placeholder. With no active tasks, no task is both active and done. |
| Store.WithTaskSpec | components/CreateTask.js:102-131 | Creating appends the new task: one more task, the earlier ones unchanged and in place, the done list and categories untouched. |
| Store.FirstTaskAlone | components/CreateTask.js:22-30 | With the active key absent, the first create leaves exactly the new task. |
| Store.CompletedSpec | components/Task.js:109-116 | Marking done removes every copy from the active list (unchanged if it was not active), keeping the others in order and number. It appends exactly one copy at the end of the done list, even with no active match, and keeps the earlier done entries. |
| Store.WithoutTaskSpec | components/Task.js:119-126 | Deleting removes every copy from the active list and keeps the others in order and number. The list shrinks when the task was there. With no match nothing changes. The done list stays. |
| Store.WithoutDoneSpec | components/DoneTasks.js:48-55 | Deleting from done removes every copy and keeps the others in order and number. With no match nothing changes, and the active list stays. |
| Store.RestoredSpec | components/DoneTasks.js:64-83 | The first write puts the task first and the old active tasks after it, in order, with the done list unchanged, so a done task is briefly in both. After the second write the active list is that same list and the task is in no done entry. |
| Store.RestoreAfterComplete | components/DoneTasks.js:64-83 | Restoring a task just marked done, when it was not done before, leaves the done list as it was. The task moves to the top of the active list. |
| Store.RestoreUndoesComplete | components/DoneTasks.js:70-82 | For a task that was first in the active list and appeared only there, marking it done and restoring it gives back the original store. |
| Store.ClearedSpec | components/DoneTasks.js:91-92 | Clearing done empties the done list and leaves the rest. Clearing all (Home.js) empties the active list and leaves the rest. |
| Store.PrioritySortedSpec | components/SortData.js:45-52 | The active list becomes a permutation of itself, non-decreasing in priority, with equal priorities in their earlier order. Sorting again changes nothing, and an empty list stays empty. |
| Store.DeadlineSortedSpec | components/SortData.js:30-42 | With every deadline a date, the active list becomes a permutation of itself with the oldest deadline first and ties in their earlier order. All deadlines remain dates, and sorting again changes nothing. |
| Store.PartitionKept | components/Task.js:109-116 | If no task is both active and done, that stays so after mark done, delete, delete from done, a whole restore, clearing and sorting. After creating a task it stays so exactly when the new task is not done. After restore's first write it stays so exactly when the task was not done. |
| Store.TaskStore.Open | components/Category.js:99-110 | Mounting reads absent keys as [], the categories as their string entries, and the deletable list without the placeholder. |
| Store.TaskStore.CreateTask | components/CreateTask.js:99-146 | The stored tasks are copied one by one and the record built from the form is appended. The result is the record and the new state `WithTask`. |
| Store.TaskStore.MarkDone | components/Task.js:95-116 | The active list is filtered, the done list is copied one by one with the task appended, and the new state is `Completed`. |
| Store.TaskStore.DeleteTask | components/Task.js:119-126 | The new state is `WithoutTask`. |
| Store.TaskStore.DeleteDone | components/DoneTasks.js:48-55 | The new state is `WithoutDone`. |
| Store.TaskStore.WriteRecovered | components/DoneTasks.js:65-75 | The task followed by the stored tasks, copied one by one, becomes the active list (`RecoverWritten`). |
| Store.TaskStore.Restore | components/DoneTasks.js:64-83 | The two writes in order give `Restored`. |
| Store.TaskStore.ClearDone | components/DoneTasks.js:91-92 | The done list becomes [] and nothing else changes. |
| Store.TaskStore.ClearActive | screens/Home.js:52-76 | An empty list is refused with an alert. Otherwise the active list is emptied. Either way the new state is `ActiveCleared`, and the result says whether the list was non-empty. |
| Store.TaskStore.SortActive | components/SortData.js:47 | The active list is copied into an array, sorted in place, and becomes `SortBy` of the old list. The other fields stay. |
| Store.TaskStore.SortByPriority | components/SortData.js:45-52 | The new state is `PrioritySorted`. |
| Store.TaskStore.SortByDeadline | components/SortData.js:35-42 | With every deadline a date, the new state is `DeadlineSorted`. |
| Store.TaskStore.CreateCategory | components/Category.js:40-68 | The outcome and the new categories are `AddCategory`'s, and the task lists stay. |
| Store.TaskStore.DeleteCategory | components/Category.js:71-97 | The outcome and the new categories are `RemoveCategory`'s, and the task lists stay. |

## Left out

- AsyncStorage, `JSON.parse` and `JSON.stringify`: storage is the class's fields, an absent key is an `Option`, and task equality is datatype equality. The real comparison of serialized records also depends on key order, which the model does not capture.
- A corrupt `@logs_task` or `@logs_done` value: `JSON.parse` throws in the source, and the model has no case for it. Only `@logs_category` has a modelled unreadable case (`Malformed`), because `getCategory` catches it.
- `handleDone` and `handleDelete` with `@logs_task` absent, and `deleteItem` of the completed list with `@logs_done` absent: the read returns [] and `JSON.parse` of it throws, so the source fails. The model reads the absent key as [] for every handler.
- Failed writes: every `storeData` catches and ignores a failed `AsyncStorage.setItem`, and `createCategoryItem` and `deleteCategoryItem` then still update `listOfCategory`, so storage and the component's list can diverge. The model assumes every write lands.
- `Date` semantics: `parseDate`, `formatDate`, `CompareDates` and `setHours`. A deadline date is a timestamp or text, and its rendering is the `format` parameter of `Display.CardDate` and `Display.DetailsDate`. A time of day is an hour and a minute; the time zone conversion of `getHours` is not modelled.
- `Store.DeadlineSortedSpec`: covers only lists in which every deadline is a date. For "Sem Data" and other text, the comparator returns `NaN` and the resulting order depends on the engine.
- `Math.random`: the three drawn digits are parameters of `CreateTask`.
- `localeCompare`: the pick-list order is any integer rank given as a parameter.
- Concurrency: the async handlers can interleave their read and write phases and lose updates. The model runs each handler to completion. Restore's two writes are modelled as two steps, with the state in between stated.
- The `Reload(categories)` callback that refreshes other components' lists is not modelled.
- UI: modals, alerts, animations, the `setTimeout` of the completed list, the Stage.js visibility toggle, App.js fonts and splash screen.
- The details modal opened with the `{}` placeholder content: the model treats content as either a task or nothing.
- Non-string entries of `@logs_category` in the CreateTask pick-list: the pick-list is built from names already read as strings.
- `Text.SliceByChars` counts Dafny characters where JavaScript counts UTF-16 code units. A character outside the Basic Multilingual Plane is one character here and two in the source.
