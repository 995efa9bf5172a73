# Habit dashboard engine

This project models the engine of the habit tracker's dashboard, the client component in
`src/app/dashboard/page.tsx`. It covers:

- the habit tag field codec: reading the stored `category` column, as a JSON array or a legacy
  comma-separated string, and writing it back;
- tag colours: the hash colour, the next palette colour, and the effect that reconciles the colour map;
- the per-habit statistics: the trailing 7-day streak and the completion percentage, with the window
  clamping of the habit list;
- the month calendar, the overview panel and the all-done-today flag;
- the tag option list, the tag manager's search and the tag usage counts;
- the habit list's status, tag and search filters and its ordering by the saved habit order;
- the operations that change the dashboard's state: moving, reordering and syncing the habit order;
  toggling logs, for today, for a past day and for every habit at once; deleting a habit; creating,
  removing and renaming a tag.

Derived values are modelled as functions over values. The state the component updates (habits,
logs, the tag catalog, the colour map and the saved habit order) is held by the class
`Dashboard.DashboardState`. Each of its methods is tied to a function of the old state and keeps
the invariant `Valid()`:

- habit ids are distinct;
- every habit's tags are distinct, trimmed and non-empty;
- no two catalog entries match each other;
- log ids are distinct and below the next id;
- there is at most one log per habit and day.

The streak walk and the colour reconciliation, which the source writes as loops over a counter and
a mutable map, are methods with loop invariants, proved against their specification functions.

Representation choices:

- Dates are day numbers: days since 1970-01-01, UTC. ISO `YYYY-MM-DD` strings compare in the same
  order as the days they name.
- Strings are character sequences. `trim` removes the JavaScript whitespace set, and `toLowerCase`
  folds ASCII letters.
- JavaScript's `localeCompare` order for the tag list is modelled as code-point lexicographic order.
- The database's fresh log ids are stood in for by a counter.

## Model

| member | source | states |
|---|---|---|
| Text.Trim | src/app/dashboard/page.tsx:184 | the result has no leading or trailing whitespace and is no longer than the input |
| Text.TrimRemovesOnlyWhitespace | src/app/dashboard/page.tsx:184 | the trimmed string is a contiguous slice of the input; only whitespace is removed, at both ends |
| Text.TrimIdempotent | src/app/dashboard/page.tsx:184 | trimming twice is trimming once |
| Text.ToLower | src/app/dashboard/page.tsx:185-186 | lower-casing keeps the length and folds each character on its own |
| Text.Split | src/app/dashboard/page.tsx:146 | `split(",")` gives at least one part, and no part contains the separator |
| Text.SplitJoin | src/app/dashboard/page.tsx:146 | joining the parts of a split with the separator gives the input back |
| Json.StringifyRoundTrip | src/app/dashboard/page.tsx:128-155 | parsing the JSON text of any list of strings gives that list back |
| Json.EscapeRoundTrip | src/app/dashboard/page.tsx:128-155 | a string's escaped form, then a closing quote, decodes to that string; the rest of the input is returned untouched |
| Json.ElementsRoundTrip | src/app/dashboard/page.tsx:128-155 | the comma-separated quoted items, then `]`, parse as exactly those items |
| Json.QuoteRoundTrip | src/app/dashboard/page.tsx:128-155 | a quoted string starts with a quote, and the string parser reads it back, leaving the rest untouched |
| Tags.Clean | src/app/dashboard/page.tsx:130-137 | the cleaned list is distinct, trimmed and non-empty; it holds exactly the non-empty trimmed input items |
| Tags.CleanOrder | src/app/dashboard/page.tsx:130-137 | the cleaned list keeps the first occurrence of each trimmed item, in the order of first occurrence |
| Tags.TrimAll | src/app/dashboard/page.tsx:130-137 | each item is replaced by its trimmed form, in place |
| Tags.CleanTagList | src/app/dashboard/page.tsx:154 | a list already in the in-memory form is cleaned to itself |
| Tags.CleanIdempotent | src/app/dashboard/page.tsx:154 | cleaning a cleaned list changes nothing |
| Tags.Normalize | src/app/dashboard/page.tsx:124-151 | whatever the stored field holds, the result is a valid tag list; the parse never fails |
| Tags.Serialize | src/app/dashboard/page.tsx:153-156 | the field is null exactly when the cleaned list is empty |
| Tags.RoundTrip | src/app/dashboard/page.tsx:124-156 | reading back what was written gives the list trimmed, without empty items and with only the first of each repeat; a null field reads as no tags |
| Tags.RoundTripTagList | src/app/dashboard/page.tsx:124-156 | for a list already in the in-memory form, writing and reading back is the identity |
| Tags.LegacyFallback | src/app/dashboard/page.tsx:139-150 | a field whose first non-blank character is not `[` is split on commas and cleaned |
| Tags.LegacySingleTag | src/app/dashboard/page.tsx:142-150 | a legacy field without a comma reads as its one trimmed tag, or as no tags when blank |
| Tags.LegacyExample | src/app/dashboard/page.tsx:143-150 | the legacy field `"work, health"` reads as `["work", "health"]` |
| Tags.ToggleSelection | src/app/dashboard/page.tsx:158-162 | a blank tag changes nothing; otherwise the trimmed tag's membership flips and no other tag's membership changes |
| Tags.ToggleSelectionKeepsTagList | src/app/dashboard/page.tsx:158-162 | toggling keeps a selection distinct, trimmed and non-empty |
| Tags.ToggleSelectionTwice | src/app/dashboard/page.tsx:158-162 | selecting an unselected tag and toggling it again restores the selection |
| Colors.PaletteCodes | src/app/dashboard/page.tsx:68-92 | every palette entry is a seven-character `#rrggbb` code |
| Colors.HashColor | src/app/dashboard/page.tsx:118-119 | the hash colour is a palette entry |
| Colors.CharCodeSumPermutation | src/app/dashboard/page.tsx:118 | the character-code sum depends only on the multiset of characters |
| Colors.CharCodeSumAppend | src/app/dashboard/page.tsx:118 | the character-code sum of a concatenation is the sum of the parts' sums |
| Colors.HashColorAnagram | src/app/dashboard/page.tsx:118-119 | two tags with the same characters in any order get the same hash colour |
| Colors.CategoryColor | src/app/dashboard/page.tsx:113-122 | a blank tag is neutral; a tag with an entry in the map gets that colour; any other tag gets its hash colour; the colour of a non-blank tag is never empty |
| Colors.CategoryColorLocal | src/app/dashboard/page.tsx:113-122 | a tag's colour depends only on the map's entry for that tag, not on other tags |
| Colors.CategoryColorDefault | src/app/dashboard/page.tsx:113-122 | for any map without an entry for the trimmed tag, the colour is the one given with an empty map, which is a palette entry for a non-blank tag |
| Colors.FirstUnused | src/app/dashboard/page.tsx:890-892 | the index found is the first one at or after the start whose colour is unused, ignoring case |
| Colors.NextPaletteColor | src/app/dashboard/page.tsx:886-895 | the next colour is the palette pick for the colours in use in the map: a 7-character palette entry, unused whenever some palette colour is unused |
| Colors.PickColor | src/app/dashboard/page.tsx:886-895 | the pick is the first palette colour not in use, ignoring case; when all are in use it is the palette entry at the number of used colours modulo the palette length |
| Colors.UpsertColor | src/app/dashboard/page.tsx:897-909 | a tag with a colour keeps the map unchanged; one without gets the next palette colour; no other entry changes |
| Colors.Reconciled | src/app/dashboard/page.tsx:664-691 | after reconciliation the map's key set is exactly the tag options |
| Colors.ReconcileKeepsDisplayedColors | src/app/dashboard/page.tsx:664-691 | reconciliation never changes the colour a current tag is drawn in |
| Colors.ReconcileIdempotent | src/app/dashboard/page.tsx:664-691 | reconciling twice is reconciling once |
| Colors.ReconciledChanges | src/app/dashboard/page.tsx:667-681 | the map changes exactly when some option lacks a colour or some key is no longer an option |
| Colors.FillMissing | src/app/dashboard/page.tsx:666-674 | the first loop adds each option's filled colour and leaves other entries alone; its flag is set exactly when some option lacked a colour |
| Colors.PruneOrphans | src/app/dashboard/page.tsx:675-681 | the second loop keeps exactly the keys that are options, with their values; its flag is set exactly when a key was removed |
| Colors.Reconcile | src/app/dashboard/page.tsx:664-691 | the effect's result is the reconciled map, and `changed` is set exactly when the map differs from the old one |
| Calendar.DaysInMonth | src/app/dashboard/page.tsx:268 | a month has 28 to 31 days; February has 29 exactly in leap years |
| Calendar.YearStartStep | src/app/dashboard/page.tsx:267-268 | consecutive years start a year's length apart |
| Calendar.MonthsFillYear | src/app/dashboard/page.tsx:268 | the twelve months add up to the year's length |
| Calendar.MonthEnd | src/app/dashboard/page.tsx:267-276 | the day before the next month starts is the month's last day, so `daysInMonth` is the month's length |
| Calendar.MondayAnchorIsMonday | src/app/dashboard/page.tsx:528 | 2 January 2023 is day 19359, a Monday |
| Calendar.FirstDayOffset | src/app/dashboard/page.tsx:277 | the offset is between 0 and 6 |
| Calendar.FirstDayOffsetFromMonday | src/app/dashboard/page.tsx:277 | the offset is the distance in days from the last Monday, and it is 0 exactly when the month starts on a Monday |
| Calendar.MondayOffset | src/app/dashboard/page.tsx:277 | for every day, the Monday-first offset is its distance from a known Monday modulo 7, and it is 0 exactly on Mondays |
| Stats.StreakWindow | src/app/dashboard/page.tsx:553-562 | position `i` of the window says whether day `today - i` has a completed log of the habit |
| Stats.FirstCompleted | src/app/dashboard/page.tsx:561-564 | the index found is the first completed day at or after the start, or the window end when there is none |
| Stats.RunFrom | src/app/dashboard/page.tsx:565-569 | the run counted is completed throughout and ends at a missing day or at the end of the window |
| Stats.StreakIsLatestRun | src/app/dashboard/page.tsx:554-569 | the streak is the length of the most recent run of completed days; that run is unique; the streak is 0 exactly when no day is completed |
| Stats.StreakAfterGap | src/app/dashboard/page.tsx:561-569 | completions only four and five days ago give a streak of 2 |
| Stats.HabitStreak | src/app/dashboard/page.tsx:554-569 | the loop with its `continue` and `break` computes the latest-run streak, at most 7 |
| Stats.CountIsDays | src/app/dashboard/page.tsx:585-595 | with one log per habit and day, the counted logs are as many as the distinct days they fall on |
| Stats.CountCompleted | src/app/dashboard/page.tsx:585-595 | at most one counted log per log in the list |
| Stats.CountedDaysInRange | src/app/dashboard/page.tsx:582-595 | the completed days counted lie within the range, so there are at most as many as the range has days |
| Stats.CountedDaysFull | src/app/dashboard/page.tsx:582-595 | every day of the range is completed exactly when the counted days are the whole range |
| Stats.CountAtMostDays | src/app/dashboard/page.tsx:585-595 | with one log per habit and day, the count never exceeds the days in the range |
| Stats.CountAllDays | src/app/dashboard/page.tsx:585-595 | with one log per habit and day, the count equals the number of days exactly when every day of the range is completed |
| Stats.DayRangeCard | src/app/dashboard/page.tsx:582-583 | the range from start to end has `end - start + 1` days |
| Stats.RoundRatioNearest | src/app/dashboard/page.tsx:601 | the rounded ratio is the integer nearest the quotient, with halves rounding up |
| Stats.Completion | src/app/dashboard/page.tsx:571-603 | the completion percentage is at most 100 |
| Stats.WindowSpan | src/app/dashboard/page.tsx:575-579 | in window mode the window spans exactly `max(windowDays, 1)` days, ending today |
| Stats.CompletionUnclamped | src/app/dashboard/page.tsx:597-602 | with one log per habit and day, the percentage is the rounded share `100 * count / totalDays`; the clamp never engages |
| Stats.CompletionPerfect | src/app/dashboard/page.tsx:571-603 | completing every day of the window gives 100 |
| Stats.GetCompletionSetting | src/app/dashboard/page.tsx:608-612 | a habit's stored setting, or a 7-day window when it has none |
| Stats.DaysSinceCreation | src/app/dashboard/page.tsx:1473-1476 | at least 1; it is the inclusive day count from creation to today when the habit is not from the future |
| Stats.ClampWindowDays | src/app/dashboard/page.tsx:1477-1480 | the clamped window lies in [1, daysSinceCreation] and equals the setting when the setting is already in range |
| Stats.StatsWindowDays | src/app/dashboard/page.tsx:1481-1482 | the days passed to the stats lie in [1, daysSinceCreation] |
| Stats.WindowInput | src/app/dashboard/page.tsx:1813-1826 | the typed window is stored clamped to [1, daysSinceCreation], and kept as typed when it is already in range |
| Stats.LongWindowIsLifetime | src/app/dashboard/page.tsx:1473-1483 | a window at least as long as the habit's age shows the lifetime completion |
| Stats.ShownWindowWithinLifetime | src/app/dashboard/page.tsx:1473-1483 | the window passed to the stats never starts before creation or after today |
| Options.LessTransitive | src/app/dashboard/page.tsx:658 | the tag order is transitive |
| Options.LessTotal | src/app/dashboard/page.tsx:658 | any two different tags are ordered |
| Options.LessIrreflexive | src/app/dashboard/page.tsx:658 | no tag sorts before itself |
| Options.SortStrings | src/app/dashboard/page.tsx:658 | sorting is a permutation |
| Options.Insert | src/app/dashboard/page.tsx:658 | inserting adds exactly the one element |
| Options.InsertSorted | src/app/dashboard/page.tsx:658 | inserting a new element into a strictly sorted list keeps it strictly sorted |
| Options.LessAsymmetric | src/app/dashboard/page.tsx:658 | no two tags sort before each other |
| Options.SortStringsSorted | src/app/dashboard/page.tsx:658 | sorting a list without repeats gives a strictly increasing list |
| Options.SortTagList | src/app/dashboard/page.tsx:658 | sorting a tag list gives a strictly sorted tag list with the same members |
| Options.SortedUnique | src/app/dashboard/page.tsx:658 | two strictly sorted lists with the same elements are equal, so the option list does not depend on insertion order |
| Options.AllCategories | src/app/dashboard/page.tsx:647-656 | a tag is collected exactly when some habit has it |
| Options.CategoryOptions | src/app/dashboard/page.tsx:644-661 | the options are distinct, trimmed, non-empty and sorted; `hasUncategorized` holds exactly when some habit has no tags |
| Options.CategoryOptionsMembers | src/app/dashboard/page.tsx:644-661 | a string is an option exactly when it is non-empty and is the trimmed form of a catalog entry or of some habit's tag |
| Options.ManagerTags | src/app/dashboard/page.tsx:1035-1039 | a blank search shows all options; otherwise exactly the options containing the search, ignoring case |
| Options.CountTagsAdds | src/app/dashboard/page.tsx:1044-1048 | counting one habit's tags adds, for each key, how often it occurs trimmed |
| Options.CountHabitsAdds | src/app/dashboard/page.tsx:1043-1049 | counting the habits in turn adds each key's occurrences across all habits |
| Options.CountHabitsNoBlank | src/app/dashboard/page.tsx:1046 | the blank tag is never counted |
| Options.CountTagsNoBlank | src/app/dashboard/page.tsx:1046 | counting one habit's tags never adds the blank tag |
| Options.TagUsageCountIsOccurrences | src/app/dashboard/page.tsx:1041-1051 | each tag's count is the number of its trimmed occurrences across habits; a key is present exactly when it occurs and is not blank |
| Filters.StatusFiltered | src/app/dashboard/page.tsx:768-773 | the status step is a filter by the status test; "all" keeps the list as it is |
| Filters.FilteredHabits | src/app/dashboard/page.tsx:767-795 | a habit is listed exactly when it is a habit that passes the status and tag filters and, for a non-blank query, the search |
| Filters.FilteredHabitsIsOneFilter | src/app/dashboard/page.tsx:767-795 | the three filters compose into one filter, so the list keeps the habits' order |
| Filters.Rank | src/app/dashboard/page.tsx:800-803 | a habit's rank is its index in the saved order, or `MAX_SAFE_INTEGER` when absent |
| Filters.InsertByRank | src/app/dashboard/page.tsx:799-805 | inserting by rank adds exactly the one habit |
| Filters.SortByRank | src/app/dashboard/page.tsx:799-805 | the sort by rank is a permutation |
| Filters.InsertByRankSorted | src/app/dashboard/page.tsx:799-805 | inserting by rank keeps a list sorted by rank |
| Filters.SortByRankSorted | src/app/dashboard/page.tsx:799-805 | the sort gives a list sorted by rank |
| Filters.InsertByRankFilter | src/app/dashboard/page.tsx:799-805 | inserting a habit into a list adds it to the habits of its own rank and leaves every other rank's habits as they were |
| Filters.SortByRankStable | src/app/dashboard/page.tsx:799-805 | the sort is stable: for each rank, the habits of that rank keep their order |
| Filters.OrderedFilteredHabitsSpec | src/app/dashboard/page.tsx:797-806 | the ordered list is a permutation of the filtered list, sorted by rank and stable |
| Filters.OrderedFilteredHabits | src/app/dashboard/page.tsx:797-806 | the ordered list is as long as the filtered list |
| Filters.AbsentHabitsLast | src/app/dashboard/page.tsx:800-804 | habits missing from the saved order come after all the others, in their filtered order |
| Ordering.NonBlankIds | src/app/dashboard/page.tsx:202 | `filter(Boolean)` keeps exactly the non-empty ids |
| Ordering.BaseOrder | src/app/dashboard/page.tsx:202 | the base is the saved order, or the habit ids when nothing is saved, without empty ids |
| Ordering.Moved | src/app/dashboard/page.tsx:199-217 | moving is a permutation; an absent id leaves the order unchanged; otherwise the id swaps with its neighbour clamped to the list |
| Ordering.MoveUpThenDown | src/app/dashboard/page.tsx:199-217 | moving up and then down restores the order when the id was not first |
| Ordering.MoveDownThenUp | src/app/dashboard/page.tsx:199-217 | moving down and then up restores the order when the id was not last |
| Ordering.MoveAtEnds | src/app/dashboard/page.tsx:205-209 | moving the first id up, or the last id down, changes nothing |
| Ordering.ReorderedAsWritten | src/app/dashboard/page.tsx:219-239 | as written: an absent id leaves the order unchanged; otherwise the length is kept, and the result is the base with the source removed and put back at the index the code computes |
| Ordering.ReorderedAsWrittenPermutes | src/app/dashboard/page.tsx:219-239 | as written, the reorder is still a permutation of the base order |
| Ordering.RemoveAt | src/app/dashboard/page.tsx:228 | `splice(srcIndex, 1)` removes one element |
| Ordering.InsertAt | src/app/dashboard/page.tsx:233 | `splice(insertIndex, 0, id)` adds one element at the index |
| Ordering.ReorderBeforeLandsAfter | src/app/dashboard/page.tsx:227-233 | as written, dropping `a` before `c` in `[a, b, c]` gives `[b, c, a]` |
| Ordering.Reordered | src/app/dashboard/page.tsx:219-239 | corrected reorder: absent or equal ids change nothing; otherwise the length is kept |
| Ordering.ReorderedPermutes | src/app/dashboard/page.tsx:227-233 | reordering is a permutation of the ids |
| Ordering.ReorderedNextToTarget | src/app/dashboard/page.tsx:227-233 | the source lands right before or right after the target, as asked |
| Ordering.ReorderedKeepsOthers | src/app/dashboard/page.tsx:227-233 | the other ids keep their relative order |
| Ordering.ReorderedPlacesSource | src/app/dashboard/page.tsx:219-239 | the corrected reorder holds the source once, next to the target on the requested side, with every other id in its old relative order |
| Ordering.ReorderedAgrees | src/app/dashboard/page.tsx:229-232 | the corrected reorder agrees with the code for "after", and for "before" when the source comes after the target |
| Ordering.ReorderBeforeCorrected | src/app/dashboard/page.tsx:219-239 | corrected, dropping `a` before `c` in `[a, b, c]` gives `[b, a, c]` |
| Ordering.SyncedOrder | src/app/dashboard/page.tsx:365-382 | without habits the order is kept; otherwise it holds exactly the current habit ids |
| Ordering.SyncedKeepsSavedOrder | src/app/dashboard/page.tsx:368-371 | the synced order starts with the surviving saved ids in their saved order, and the rest is exactly the habit ids missing from them, in habit order |
| Ordering.SyncedIsPermutation | src/app/dashboard/page.tsx:365-382 | with distinct ids, the synced order is a permutation of the habit ids |
| Ordering.SyncedIdempotent | src/app/dashboard/page.tsx:372-374 | syncing an already synced order leaves it unchanged |
| Aggregate.DayCellFor | src/app/dashboard/page.tsx:489-512 | `activeCount` is the number of habits active that day and `completedCount` the number of them completed that day; `completedCount` is at most `activeCount`; `completeAll` holds exactly when some habit is active and every active habit is completed; the future and today flags compare the day with today |
| Aggregate.DayCounts | src/app/dashboard/page.tsx:491-502 | the lengths of the filtered lists are the numbers of positions of active, and of active and completed, habits |
| Aggregate.ActiveAllDone | src/app/dashboard/page.tsx:495-499 | every habit of the active list is completed exactly when every habit active that day is |
| Aggregate.CompleteAllIsFullCount | src/app/dashboard/page.tsx:495-502 | a day is all done exactly when both counts are positive and equal |
| Aggregate.MonthDays | src/app/dashboard/page.tsx:488-521 | one cell per day of the month; the `i`-th cell is day `i + 1` |
| Aggregate.MonthDaysCoverMonth | src/app/dashboard/page.tsx:489-490 | the cells run day by day from the first of the month to the day before the next month |
| Aggregate.LongestStreak | src/app/dashboard/page.tsx:618-619 | the longest streak is at least every habit's streak and is one of them; it is 0 without habits |
| Aggregate.CompletionSum | src/app/dashboard/page.tsx:624-627 | the sum of the completions is at most 100 per habit |
| Aggregate.Overview | src/app/dashboard/page.tsx:614-637 | the total is the habit count; `completedToday` is the number of habits completed today; the completion rate is that count over the total as a rounded percentage, 0 without habits; the longest streak is the maximum streak; the average is the rounded mean of the completion rates, 0 without habits; both percentages lie in [0, 100] and the streak is at most 7 |
| Aggregate.TodayCount | src/app/dashboard/page.tsx:616 | the length of the list of habits done today is the number of positions of habits done today |
| Aggregate.RoundPercent | src/app/dashboard/page.tsx:617 | a share of at most the whole rounds to at most 100, and the whole rounds to 100 |
| Aggregate.RoundAverage | src/app/dashboard/page.tsx:620-628 | the mean of percentages rounds to at most 100 |
| Aggregate.AllCompletedTodayIsFullCount | src/app/dashboard/page.tsx:639-642 | all habits are done today exactly when there is a habit and the overview counts them all; then today's completion is 100 |
| Toggles.FirstLogIndex | src/app/dashboard/page.tsx:434-436 | `find` gives the first log of the habit on the day, or none exactly when there is none |
| Toggles.WithoutLog | src/app/dashboard/page.tsx:440 | the logs that remain are exactly those with a different id |
| Toggles.Toggled | src/app/dashboard/page.tsx:432-455 | without a log that day, a completed log with the fresh id is appended |
| Toggles.ToggleFlips | src/app/dashboard/page.tsx:432-455 | with one log per habit and day, toggling flips whether the habit is logged that day |
| Toggles.ToggleKeepsOthers | src/app/dashboard/page.tsx:432-455 | every log of another habit or day survives a toggle |
| Toggles.ToggleWellFormed | src/app/dashboard/page.tsx:432-455 | toggling keeps log ids distinct and below the next id, and keeps one log per habit and day |
| Toggles.ToggleTwice | src/app/dashboard/page.tsx:432-455 | toggling a day on and off again restores the log list |
| Toggles.ToggledOnDate | src/app/dashboard/page.tsx:457-481 | a future day changes nothing; any other day toggles |
| Toggles.NewLogs | src/app/dashboard/page.tsx:826-831 | one completed log for today per outstanding habit, with consecutive fresh ids |
| Toggles.ToggledAll | src/app/dashboard/page.tsx:808-838 | without habits the logs are kept |
| Toggles.ToggledAllEffect | src/app/dashboard/page.tsx:808-838 | when every habit is done, no habit is logged today afterwards; otherwise every habit is done afterwards |
| Toggles.ToggledAllWellFormed | src/app/dashboard/page.tsx:808-838 | toggling all keeps the logs well formed |
| Toggles.ToggledAllFrame | src/app/dashboard/page.tsx:808-838 | toggling all keeps every log of another day and adds none; when not every habit is done, every old log is kept |
| Toggles.AppendNewLogsWellFormed | src/app/dashboard/page.tsx:826-836 | appending the new logs for habits not logged today keeps the logs well formed, with the id counter advanced by their number |
| Toggles.LogsWithoutHabit | src/app/dashboard/page.tsx:429 | the remaining logs are exactly those of other habits; the deleted habit has no log left |
| Toggles.HabitsWithout | src/app/dashboard/page.tsx:428 | the remaining habits are exactly those with another id |
| Toggles.DeleteWellFormed | src/app/dashboard/page.tsx:424-430 | deleting keeps the logs well formed and the habit ids distinct |
| TagLifecycle.CreateTagOutcome | src/app/dashboard/page.tsx:911-920 | a blank name is refused; a name matching an option, ignoring case, is refused; otherwise the trimmed name is created and matches no option |
| TagLifecycle.AddToCatalog | src/app/dashboard/page.tsx:921-924 | afterwards the catalog has a matching entry; it only grows, and by at most one entry |
| TagLifecycle.AddKeepsDistinct | src/app/dashboard/page.tsx:921-924 | adding keeps the catalog free of matching pairs |
| TagLifecycle.StripTag | src/app/dashboard/page.tsx:940 | exactly the entries not matching the tag remain |
| TagLifecycle.StripHabit | src/app/dashboard/page.tsx:934-938 | a habit keeps its id, name, description and creation day, and exactly its non-matching tags |
| TagLifecycle.StripHabits | src/app/dashboard/page.tsx:933-939 | every habit is stripped, in place in the list |
| TagLifecycle.StripTagKeepsTagList | src/app/dashboard/page.tsx:936 | stripping keeps a tag list valid |
| TagLifecycle.StripTagKeepsDistinct | src/app/dashboard/page.tsx:940 | stripping keeps the catalog free of matching pairs |
| TagLifecycle.RemoveAfterCreate | src/app/dashboard/page.tsx:911-940 | removing a tag just added to a catalog that had no match restores the catalog |
| TagLifecycle.RemoveTagClearsOptions | src/app/dashboard/page.tsx:929-946 | after removal no tag option matches the removed tag |
| TagLifecycle.RemoveTagKeepsOthers | src/app/dashboard/page.tsx:929-946 | every option not matching the removed tag is still an option |
| TagLifecycle.RenameCheck | src/app/dashboard/page.tsx:966-981 | a blank name on either side is ignored; a new name matching a different option is refused; otherwise both names are passed on trimmed |
| TagLifecycle.RenamedAsWritten | src/app/dashboard/page.tsx:992-999 | as written: every entry matching the old name becomes the new name, and the others stay in place |
| TagLifecycle.RenameKeepsCatalogDistinct | src/app/dashboard/page.tsx:974-994 | a rename the collision check lets through keeps the catalog free of matching pairs |
| TagLifecycle.CatalogCollisionIsOption | src/app/dashboard/page.tsx:974-981 | a collision in the catalog is a collision among the options, so the check covers the catalog |
| TagLifecycle.CatalogEntryIsOption | src/app/dashboard/page.tsx:645-656 | every non-blank catalog entry is, trimmed, a tag option |
| TagLifecycle.RenameMergesIntoDuplicates | src/app/dashboard/page.tsx:995-1001 | as written, renaming `health` to `Wellness` in the valid tags `["Health", "health"]` leaves `["Wellness", "Wellness"]` |
| TagLifecycle.RenamedTagsTagList | src/app/dashboard/page.tsx:995-1001 | the corrected rename keeps a tag list valid |
| TagLifecycle.RenamedTagsMembers | src/app/dashboard/page.tsx:995-1001 | the corrected rename holds the new name when some tag matched, plus exactly the tags that did not match |
| TagLifecycle.RenameMergesOnce | src/app/dashboard/page.tsx:995-1001 | corrected, the same rename leaves `["Wellness"]` |
| TagLifecycle.RenamedHabit | src/app/dashboard/page.tsx:996-1000 | a renamed habit keeps its other fields; a habit with no matching tag is untouched |
| TagLifecycle.RenamedHabits | src/app/dashboard/page.tsx:995-1001 | every habit is renamed in place in the list |
| TagLifecycle.RenameToSameNameDropsColor | src/app/dashboard/page.tsx:983-990 | as written, renaming `work` to `work` empties the map `{work: #ff00ff}`, so the tag falls back to its hash colour |
| TagLifecycle.RenamedColors | src/app/dashboard/page.tsx:983-990 | corrected: the new name has the old key's colour; the old key is gone unless it is the new name; other entries are unchanged |
| TagLifecycle.RenamedColorsAgree | src/app/dashboard/page.tsx:983-990 | the two colour updates agree whenever the old key differs from the new name |
| TagLifecycle.RenamedColorsKeepColor | src/app/dashboard/page.tsx:983-990 | after the corrected update the renamed tag is drawn in the old key's colour |
| Dashboard.DashboardState.constructor | src/app/dashboard/page.tsx:30-62 | the initial state is empty and valid |
| Dashboard.DashboardState.DeleteHabit | src/app/dashboard/page.tsx:424-430 | the habit and its logs go; nothing else changes; the invariant is kept |
| Dashboard.DashboardState.ToggleHabit | src/app/dashboard/page.tsx:432-455 | when signed in, today's log of the habit is toggled and whether it is logged today flips; signed out nothing changes |
| Dashboard.DashboardState.ToggleHabitOnDate | src/app/dashboard/page.tsx:457-481 | the same for a past day or today; a future day or a signed-out user changes nothing |
| Dashboard.DashboardState.ToggleAllToday | src/app/dashboard/page.tsx:808-838 | clears today when every habit is done, otherwise completes every habit today (other days' logs kept, see Toggles.ToggledAllFrame); nothing without habits or user |
| Dashboard.DashboardState.MoveHabit | src/app/dashboard/page.tsx:199-217 | the saved order becomes the moved base order, a permutation of it |
| Dashboard.DashboardState.ReorderHabit | src/app/dashboard/page.tsx:219-239 | blank or equal ids change nothing; otherwise the saved order becomes the corrected reorder of the base order |
| Dashboard.DashboardState.SyncHabitOrder | src/app/dashboard/page.tsx:365-382 | the saved order becomes the synced order, holding exactly the habit ids |
| Dashboard.DashboardState.CreateTag | src/app/dashboard/page.tsx:911-927 | the message follows the outcome; a created tag joins the catalog and gets a colour; a refused one changes nothing |
| Dashboard.DashboardState.AddTag | src/app/dashboard/page.tsx:921-925 | the catalog and the colour map take the created tag |
| Dashboard.DashboardState.UpsertTagColor | src/app/dashboard/page.tsx:897-909 | the colour map becomes the upserted map, in which the tag has a colour |
| Dashboard.DashboardState.RemoveTag | src/app/dashboard/page.tsx:929-964 | a blank name changes nothing; otherwise the tag leaves every habit and the catalog, and one matching colour key, if any, is deleted |
| Dashboard.DashboardState.StripFromHabits | src/app/dashboard/page.tsx:933-939 | the habits become the stripped habits |
| Dashboard.DashboardState.StripFromCatalog | src/app/dashboard/page.tsx:940 | the catalog becomes the stripped catalog |
| Dashboard.DashboardState.DropTagColor | src/app/dashboard/page.tsx:941-946 | one key matching the tag is deleted when there is one; otherwise the map is unchanged |
| Dashboard.DashboardState.RenameTag | src/app/dashboard/page.tsx:966-1033 | the message follows the check; an ignored or refused rename changes nothing; otherwise the habits and the catalog are renamed, the colour of a key matching the old name moves under the new name (corrected update), and a map without such a key is unchanged |
| Dashboard.DashboardState.RenameTagColor | src/app/dashboard/page.tsx:983-990 | the colour of one key matching the old name moves under the new name (corrected update) |
| Dashboard.DashboardState.RenameInCatalog | src/app/dashboard/page.tsx:992-994 | the catalog's matching entries become the new name, and the catalog stays free of matching pairs |
| Dashboard.DashboardState.RenameInHabits | src/app/dashboard/page.tsx:995-1005 | the habits' matching tags become the new name, kept once per habit |
| Dashboard.DashboardState.ReconcileColors | src/app/dashboard/page.tsx:664-691 | the colour map becomes the reconciled map for the current options |

## Left out

- Every Supabase call is out of the model: auth, selects, inserts, updates, deletes, and the `Promise.all` fan-out of `removeTag` and `renameTag`. Only the local state change is modelled, and inserts are taken to succeed with a fresh id from a counter. The error messages about failed persistence are not modelled.
- localStorage reads and writes are not modelled. This covers the stored habit order, the tag catalog and the colour map.
- React's state, memoisation, effects, scrolling and drag handlers are not modelled. Each effect is a method or function applied when its inputs change.
- `Intl.DateTimeFormat` labels are not modelled: the month label, the weekday labels and the last-7-days labels.
- Parsing of arbitrary timestamps (`normalizeIso`) is not modelled. Dates are already day numbers.
- The floating-point arithmetic of `Math.round` and of dividing milliseconds by a day's length is modelled as exact rational rounding.
- `Options.SortStrings`: `localeCompare` is replaced by code-point lexicographic order, because locale collation is library behaviour.
- `Text.ToLower`: only ASCII letters are folded, because Unicode case mapping is library behaviour.
- `Tags.Normalize`: a JSON array holding non-string items is read through the legacy comma path. The code would instead convert each item with `String(item)`. The JSON parser covers arrays of strings only.
- `Tags.Normalize`: every `\u` escape in the range d800 to dfff is rejected by the JSON parser, including a valid surrogate pair such as `["\ud83d\ude00"]`. Such a field is then read through the legacy comma path, whereas `JSON.parse` would give the emoji. Strings are sequences of code points here, so UTF-16 surrogate pairs are not modelled.
- `Dashboard.DashboardState.RemoveTag`: when several colour keys match, the code deletes the first in JavaScript key order. The model deletes one matching key, chosen freely. `Dashboard.DashboardState.RenameTagColor` and `Dashboard.DashboardState.DropTagColor` treat the colour key the same way.
- `Dashboard.DashboardState.ReorderHabit`: applies the corrected reorder (`Ordering.Reordered`). For a drop "before" a target that comes after the source, this differs from page.tsx:229-233 (first row of the Findings); `Ordering.ReorderedAsWritten` models the code as written.
- `Dashboard.DashboardState.RenameTagColor`: applies the corrected colour move (`TagLifecycle.RenamedColors`). It differs from page.tsx:987-990 only when the old key is already the new name, where the code drops the colour (second row of the Findings).
- `Dashboard.DashboardState.RenameInHabits`: keeps the new name once per habit (`TagLifecycle.RenamedHabits`). The code keeps both copies in memory when a habit holds two case variants of the old name (third row of the Findings).
- `Dashboard.DashboardState.RenameTag`: renames through the corrected `RenameInHabits` and `RenameTagColor` above, so it inherits their two differences from the code.
- `Colors.CategoryColor`: the colour map is a plain dictionary. In the code it is a plain JavaScript object, so a tag named like an `Object.prototype` member (`constructor`, `toString`) finds an inherited value at page.tsx:117; such tags are not modelled.
- `Colors.UpsertColor`: the same plain-dictionary reading; the code's `categoryColors[tag]` check at page.tsx:899 sees inherited members for prototype-named tags.
- `Colors.Reconciled`: the same plain-dictionary reading; the lookup at page.tsx:669 sees inherited members for prototype-named tags.
- `Options.TagUsageCountIsOccurrences`: the counts are a plain dictionary; the code's object at page.tsx:1047 starts a prototype-named tag from an inherited member rather than 0. `Options.TagUsageCount` reads the same way.
- `Stats.WindowInput`: the typed window is an integer. The code stores `Number(e.target.value)` at page.tsx:1822, which can be a non-integer such as 2.5 when it lies in range.
- Omitted code paths in the same file:
  - `addHabit`, `saveHabitEdits`, `startEditingHabit` and the custom-category inputs: form handlers around the database insert and update.
  - `loadTagCatalog`: a localStorage read, cleaned the same way as `Tags.Clean`.
  - `selectedDayHabits`, `logsByHabit`, `habitLookup`, `recentActivity`, `last7Days`: display-only views.
- Two behaviours of the code that one might expect otherwise:
  - Streak: with completions only four and five days ago, the streak is 2, not 0. The code skips the leading days without a completion (`Stats.StreakAfterGap`).
  - Rename: a blank old or new name is silently ignored, with no validation message (`TagLifecycle.RenameCheck`).

## Findings

| source | as written | input that shows it | evidently intended | confidence | as-written member | corrected member |
|---|---|---|---|---|---|---|
| src/app/dashboard/page.tsx:229-232 | dropping "before" a target that comes after the source inserts at the target's old index, which is one past the target once the source is removed | order `[a, b, c]`, drop `a` before `c`: result `[b, c, a]` | the source lands right before the target: `[b, a, c]` | high, not executed | Ordering.ReorderBeforeLandsAfter | Ordering.ReorderedPlacesSource |
| src/app/dashboard/page.tsx:987-990 | the colour is copied under the new name, then the old key is deleted, even when the old key is the new name | colours `{work: #ff00ff}`, rename `work` to `work`: the map becomes empty and the tag falls back to its hash colour | renaming keeps the tag's colour under the new name | high, not executed | TagLifecycle.RenameToSameNameDropsColor | TagLifecycle.RenamedColorsKeepColor |
| src/app/dashboard/page.tsx:995-1001 | every tag matching the old name is replaced, so a habit holding two case variants gets the new name twice in memory; only the persisted field is deduplicated | habit tags `["Health", "health"]`, rename `health` to `Wellness`: `["Wellness", "Wellness"]` | the habit holds `Wellness` once, as it does after a reload | medium, not executed | TagLifecycle.RenameMergesIntoDuplicates | TagLifecycle.RenamedTagsTagList |
