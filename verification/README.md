# Schedule text generator — a Dafny model

The application edits opening-hours rules and turns them into one French
sentence. Each rule pairs a **day pattern** with a **time pattern**. The day
pattern is one of four kinds:

- chosen weekdays;
- every day except some weekdays;
- explicit dates;
- date ranges.

The time pattern is one of three kinds: round the clock (`H24`), sunrise to
sunset, or a list of `HH:mm` slots.

This project models three layers:

- **The renderer** (`ScheduleGeneratorService`). It gives the text of one rule
  and of a whole list. It covers:
  - weekday runs ("Lundi au Mercredi");
  - the every-day-except phrase;
  - dates grouped by month, where only the current year is dropped from the
    month label;
  - the three forms of a date range;
  - the time slots.
- **The rule editor.** It holds one rule and the text of its date input. Each
  user action is a pure transition from one editor state to the next. A
  transition may emit the changed rule or a removal request. Both editor
  components (the `@Input` one and the signal one) perform the same
  transitions, so one model serves both.
- **The application's rule list**: adding, removing and replacing rules by id,
  and the guard that refuses to save an empty list. Both application
  components perform the same list updates.

Module layout:

| module | contents |
|---|---|
| `Wrappers` | the `Option` type |
| `Seqs` | the JavaScript array operations the code uses: `filter`, `map`, `splice(i, 1)` |
| `Strings` | `join`, number printing, `String.replace` with a string pattern, `trim`'s whitespace, character order for `sort()` (equal to `sort()` on ASCII) |
| `Calendar` | dates as (year, month, day), the `YYYY-MM-DD` parser, French month names, the `dd/mm/yyyy` short form, chronological order |
| `ScheduleModel` | the rule datatypes and the default day patterns |
| `Weekdays`, `DateText`, `TimeText` | the four day-pattern renderers and the time part |
| `ScheduleGenerator` | the text of a rule and of a list of rules |
| `RuleEditor` | the editor transitions and the invariant they keep |
| `RuleList` | the list operations and the save guard |
| `Examples` | a few concrete phrases |

Two values come from the environment and are parameters here:

- the current year (`new Date().getFullYear()`), as `currentYear`;
- the id of a new rule (`Date.now()`), as `id`.

Three behaviours of the code worth knowing:

- **Year in month labels.** The month label drops the year only when it is the
  current year (`MonthLabelDropsOnlyCurrentYear`). Dates of another year keep
  it: "5 mars 2023".
- **Date ranges.** They are a list (`dateRanges`), as the renderer and both
  editors use them. The single `dateRange` field of `src/models/schedule.model.ts`
  is not used by any of them.
- **Blank time part.** A rule with a day part but an empty time part renders
  as its day part followed by a trailing space (`RuleString`). `generate` does
  not trim the texts it keeps; it only uses `trim` to decide which to keep.

## Model

| member | source | states |
|---|---|---|
| ScheduleGenerator.Generate | src/app/services/schedule-generator.service.ts:10-18 | The schedule text is empty exactly when no rule has a day part (this covers the empty list). |
| ScheduleGenerator.GenerateAppend | src/app/services/schedule-generator.service.ts:14-17 | The text of `a + b` is the two texts joined by ", ", or only one of them when the other is empty: rules are rendered in input order and joined once. |
| ScheduleGenerator.GenerateSingle | src/app/services/schedule-generator.service.ts:10-25 | A one-rule list renders as that rule's text when it has a day part, and as nothing otherwise. |
| ScheduleGenerator.GenerateDropsSilentRule | src/app/services/schedule-generator.service.ts:14-22 | A rule without a day part can be removed anywhere in the list without changing the text, whatever its time pattern. |
| ScheduleGenerator.RuleString | src/app/services/schedule-generator.service.ts:20-25 | A rule's text is empty exactly when its day part is; otherwise it is exactly the day part, a space and the time part, so an empty time part leaves a trailing space. |
| ScheduleGenerator.RuleStringBlankIff | src/app/services/schedule-generator.service.ts:16-25 | The `trim() !== ''` filter keeps a rule's text exactly when its day part is non-empty. A day part never starts with whitespace, so a rule with only a time part is never kept. |
| ScheduleGenerator.DayPart | src/app/services/schedule-generator.service.ts:27-40 | Per variant, the day part is empty exactly when: no weekday is chosen; all seven days are excluded; the date list is empty; or every range says nothing. |
| ScheduleGenerator.DayPartStartsVisibly | src/app/services/schedule-generator.service.ts:27-40 | A non-empty day part starts with a letter or digit, never with a character `trim` removes. |
| Weekdays.ActiveDays | src/app/services/schedule-generator.service.ts:43 | The active indices are strictly increasing and hold exactly the weekdays whose flag is set. There are seven exactly when all are set and none exactly when none is. |
| Weekdays.Runs | src/app/services/schedule-generator.service.ts:48-64 | The grouping loop cuts the active indices into non-empty runs of consecutive indices. Together the runs are the indices in order, and no run could be extended by the next one (no wrap from Saturday to Sunday). |
| Weekdays.RunPartitionUnique | src/app/services/schedule-generator.service.ts:48-64 | There is only one way to cut a sequence into maximal consecutive runs, so the loop's groups are determined by the active days alone. |
| Weekdays.FormatWeekly | src/app/services/schedule-generator.service.ts:42-47 | The weekly phrase is empty exactly when no day is active, and is "Tous les jours" when all seven are. |
| Weekdays.WeeklyPhraseOfMaximalRuns | src/app/services/schedule-generator.service.ts:42-73 | For a week that is neither empty nor full, the phrase is the ", "-join of the run phrases of any maximal-run cut of the active days. A run longer than two is "First au Last"; shorter runs list their names. |
| Weekdays.FormatDailyExcept | src/app/services/schedule-generator.service.ts:75-80 | No exclusion gives exactly "Tous les jours" and seven exclusions give exactly "". Otherwise the phrase is "Tous les jours sauf " followed by the excluded names in weekday order, joined by ", ". |
| Weekdays.DailyExceptMatchesComplement | src/app/services/schedule-generator.service.ts:42-80 | Excluding some days and choosing the complement agree on the ends: both are empty together, and both are "Tous les jours" together. |
| Calendar.ParseDate | src/app/services/schedule-generator.service.ts:117-120 | A successful parse yields a real calendar date that prints back as exactly the input string. |
| Calendar.ParseFormatIso | src/app/services/schedule-generator.service.ts:117-120 | Every valid date is read back from its `YYYY-MM-DD` form. |
| Calendar.ParseDateSucceedsIff | src/app/services/schedule-generator.service.ts:120 | Parsing succeeds exactly on the storage forms of valid dates; everything else is the `isNaN` case. |
| Calendar.SortDates | src/app/services/schedule-generator.service.ts:85 | Sorting by time value yields the same dates, each as often as before, in chronological order. |
| Calendar.MonthNameInjective | src/app/services/schedule-generator.service.ts:122-128 | Two month names are equal exactly when the months are, so comparing names compares months. |
| Calendar.ShortDate | src/app/services/schedule-generator.service.ts:134 | The `fr-FR` short date is the two-digit day, "/", the two-digit month, "/" and the year, and the three fields read back as the date's day, month and year. |
| DateText.GroupByMonth | src/app/services/schedule-generator.service.ts:87-94 | The groups are non-empty, the first holds the first date, and expanding them gives back the dates in order. |
| DateText.GroupsChronological | src/app/services/schedule-generator.service.ts:87-96 | On sorted dates the groups are in strictly increasing (year, month) order, so no two share a key and `Object.entries` order is chronological. |
| DateText.GroupsHoldTheirMonth | src/app/services/schedule-generator.service.ts:87-94 | On sorted dates each group holds exactly the day numbers of its month and year, in order, as the keyed accumulation collects them. |
| DateText.MonthLabelCuts | src/app/services/schedule-generator.service.ts:97-99 | `replace(' ' + year, '')` on a "month year" label cuts the current year's digits right after the one space when they begin the label's year, and changes nothing otherwise. |
| DateText.MonthLabelDropsOnlyCurrentYear | src/app/services/schedule-generator.service.ts:97-99 | For four-digit years, the label is the bare month name exactly when the year is the current one; otherwise it keeps " year". |
| DateText.GroupPhrase | src/app/services/schedule-generator.service.ts:100 | A group's phrase is its day numbers joined by ", ", a space and the month label; it is non-empty and starts with the first day number. |
| DateText.FormatDates | src/app/services/schedule-generator.service.ts:82-103 | The dates phrase is empty exactly when the list is, and otherwise starts with a day number. |
| DateText.DatesPhraseByMonth | src/app/services/schedule-generator.service.ts:82-103 | The dates phrase is the ", "-join of one phrase per month. The months come in chronological order and each holds exactly its days in ascending order; the sort loses no date. |
| DateText.FormatSingleDateRange | src/app/services/schedule-generator.service.ts:114-136 | A range says nothing exactly when an end is empty or unparseable; otherwise its phrase starts with "du ". |
| DateText.RangePhraseOfDates | src/app/services/schedule-generator.service.ts:122-135 | For two valid dates the phrase has one of three forms. Same month and year: "du d1 au d2 M". Same year, another month: "du d1 M1 au d2 M2". Different years: the short dates. |
| DateText.FormatDateRanges | src/app/services/schedule-generator.service.ts:105-112 | The ranges phrase is empty exactly when every range says nothing, and otherwise starts with "du ". |
| DateText.FormatOneDateRange | src/app/services/schedule-generator.service.ts:105-112 | A list of one range reads as that range's own phrase (or nothing). |
| DateText.FormatDateRangesAppend | src/app/services/schedule-generator.service.ts:108-111 | The phrase of `a + b` is the two phrases joined by ", ", or only one of them when the other is empty: ranges are rendered in order and the non-empty phrases joined once. |
| DateText.SilentRangeIgnored | src/app/services/schedule-generator.service.ts:108-111 | A range that says nothing can be removed anywhere in the list without changing the phrase. |
| Strings.ReplaceFirst | src/app/services/schedule-generator.service.ts:99 | `String.replace` with a string pattern replaces the leftmost occurrence only, and returns the input unchanged without one. |
| TimeText.ClockTextRoundTrip | src/app/services/schedule-generator.service.ts:149 | On an `HH:mm` time, `replace(':', 'H')` changes exactly the colon to an `H`, and replacing the `H` back gives the time again. |
| TimeText.ClockTextWithoutColon | src/app/services/schedule-generator.service.ts:149 | A time without a colon is shown unchanged. |
| TimeText.TimePart | src/app/services/schedule-generator.service.ts:138-154 | `H24` and sunrise-sunset give their fixed phrases. The time part is empty exactly for a time range without slots; one slot reads as its own phrase, and more slots start with the first slot's phrase. |
| TimeText.TimePartAppendSlot | src/app/services/schedule-generator.service.ts:148-150 | Adding a slot to a non-empty list appends " et " and that slot's phrase, so the slots appear in order. |
| ScheduleModel.DefaultDayPattern | src/app/components/schedule-rule/schedule-rule.component.ts:44-58 | The pattern installed for a type has that type and is well formed. It chooses no weekday, no date and no excluded day, or holds one unset range. |
| RuleEditor.OnDayPatternTypeChange | src/app/components/schedule-rule/schedule-rule.component.ts:41-61 | Choosing the current type, or having no rule, changes and emits nothing. Another type installs that type's default pattern, keeps the rule's id and time pattern, and emits the rule. |
| RuleEditor.DayTypeChangeIdempotent | src/components/schedule-rule/schedule-rule.component.ts:49-71 | Choosing a day type twice is choosing it once; the second choice emits nothing. |
| RuleEditor.DefaultDayPatternText | src/components/schedule-rule/schedule-rule.component.ts:54-68 | A freshly installed day pattern says nothing, except every-day-except, which says "Tous les jours". |
| RuleEditor.OnTimePatternTypeChange | src/app/components/schedule-rule/schedule-rule.component.ts:63-74 | The type is set and the rule emitted. Time range keeps existing slots or seeds 08:00-14:00; any other type drops the slot list. The id and day pattern stay. |
| RuleEditor.TimeTypeChangeSaysSomething | src/components/schedule-rule/schedule-rule.component.ts:73-85 | After any time-type change the rule's time part is non-empty. |
| RuleEditor.FlipAt | src/app/components/schedule-rule/schedule-rule.component.ts:78 | `a[i] = !a[i]` flips exactly position i inside the array. Past the end the array grows, with `true` at i and `false` in the gap; a negative index leaves the elements alone. |
| RuleEditor.FlipTwice | src/components/schedule-rule/schedule-rule.component.ts:90 | Flipping the same position twice restores the flags. |
| RuleEditor.ToggleDay | src/app/components/schedule-rule/schedule-rule.component.ts:76-81 | On a weekly pattern one flag flips, the rule is emitted and nothing else changes; on any other pattern nothing happens. |
| RuleEditor.ToggleExceptDay | src/app/components/schedule-rule/schedule-rule.component.ts:83-88 | The same for the excluded days of an every-day-except pattern. |
| RuleEditor.ToggleDayTwice | src/components/schedule-rule/schedule-rule.component.ts:87-93 | Toggling the same weekday twice gives the editor back. |
| RuleEditor.ToggleExceptDayTwice | src/components/schedule-rule/schedule-rule.component.ts:95-101 | Toggling the same excluded day twice gives the editor back. |
| RuleEditor.AddDate | src/app/components/schedule-rule/schedule-rule.component.ts:90-99 | It acts only on a dates pattern with a date typed in, and then always clears the input. It emits exactly when the date was new. The new list is sorted and is the old list plus the date, as multisets. |
| Strings.SortStrings | src/app/components/schedule-rule/schedule-rule.component.ts:94 | `sort()` yields the same strings, each as often as before, in ascending code order. |
| RuleEditor.AddDateKeepsDistinct | src/components/schedule-rule/schedule-rule.component.ts:103-113 | Adding keeps a duplicate-free date list duplicate-free, and the typed date is in it afterwards. |
| RuleEditor.AddDateListDetermined | src/components/schedule-rule/schedule-rule.component.ts:106-108 | When the typed date is new, the list left behind is the one ascending arrangement of the old dates plus that date: any sorted list with those contents equals it. |
| Strings.SortStringsUnique | src/components/schedule-rule/schedule-rule.component.ts:108 | `sort()`'s result is the only ascending arrangement of its input: any sorted list holding the same strings equals it. |
| Strings.SortedPermutationsEqual | src/app/components/schedule-rule/schedule-rule.component.ts:94 | Two ascending lists holding the same strings, each as often, are the same list, so the sorted order of the dates does not depend on how they were added. |
| RuleEditor.RemoveDate | src/app/components/schedule-rule/schedule-rule.component.ts:101-106 | On a dates pattern the date is gone, every other date stays and the rule is emitted; on any other pattern nothing happens. |
| RuleEditor.RemoveDateKeepsOthers | src/components/schedule-rule/schedule-rule.component.ts:115-121 | Removal keeps the other dates in their order and as often as they occurred, and removes every copy of the date. |
| RuleEditor.AddTimeSlot | src/app/components/schedule-rule/schedule-rule.component.ts:108-113 | When a slot list exists (even an empty one), 18:00-21:00 is appended and the rule is emitted; otherwise nothing happens. |
| RuleEditor.RemoveTimeSlot | src/app/components/schedule-rule/schedule-rule.component.ts:115-120 | When a slot list exists, it becomes `splice(index, 1)` of itself and the rule is emitted; nothing else changes. |
| RuleEditor.RemoveTimeSlotUndoesAdd | src/components/schedule-rule/schedule-rule.component.ts:123-137 | Removing the slot just added gives the editor back. |
| RuleEditor.RemoveTimeSlotAt | src/components/schedule-rule/schedule-rule.component.ts:131-137 | Removing position i removes exactly that slot and shifts the later ones down. |
| Seqs.SpliceOne | src/app/components/schedule-rule/schedule-rule.component.ts:117 | `splice(index, 1)` with JavaScript's index rules. An index inside the array removes that element. A negative index counts from the end, and one before the start removes the first element. An index past the end removes nothing. |
| RuleEditor.AddDateRange | src/app/components/schedule-rule/schedule-rule.component.ts:122-127 | On a ranges pattern an unset range is appended and the rule is emitted; otherwise nothing happens. |
| RuleEditor.RemoveDateRange | src/app/components/schedule-rule/schedule-rule.component.ts:129-134 | It acts only while more than one range exists. It then splices out one range and emits, and at least one range remains. |
| RuleEditor.RemoveDateRangeUndoesAdd | src/components/schedule-rule/schedule-rule.component.ts:139-153 | Removing the range just added gives the editor back. |
| RuleEditor.AddDateRangeSilent | src/components/schedule-rule/schedule-rule.component.ts:139-145 | Adding an unset range does not change the rendered ranges phrase. |
| RuleEditor.TypeDate | src/components/schedule-rule/schedule-rule.component.ts:20 | Typing into the date input changes only `newDate`, emits nothing, and leaves it either empty or a parseable date; a valid date is taken as typed. |
| RuleEditor.TypeThenAddDate | src/components/schedule-rule/schedule-rule.component.ts:103-113 | Typing a valid date and pressing add leaves that date in the rule's list and the input cleared; the rule is emitted exactly when the date was new. |
| RuleEditor.EmitRemove | src/app/components/schedule-rule/schedule-rule.component.ts:136-140 | It asks for the removal of the rule's id, and only when there is a rule; the editor is unchanged. |
| RuleEditor.ApplyKeepsInvariant | src/components/schedule-rule/schedule-rule.component.ts:49-160 | Every user action, typing into the date input included, keeps the editor's rule renderable: seven flags, parseable dates, at least one range, slots exactly for a time range. Every rule it emits has that shape. |
| RuleEditor.RunKeepsInvariant | src/app/components/schedule-rule/schedule-rule.component.ts:41-140 | No sequence of actions, date typing included, breaks that invariant, so the renderer's preconditions hold for the edited rule at every moment. |
| RuleList.AddRule | src/app/app.component.ts:27-40 | Exactly one rule is appended, and the earlier rules are unchanged. The new rule has no weekday chosen and the slot 08:00-14:00. |
| RuleList.DefaultRuleSilent | src/app.component.ts:25-38 | A new rule has the editor's shape and its day part is empty. |
| RuleList.AddRuleKeepsText | src/app/app.component.ts:16-40 | Adding a rule does not change the schedule text. |
| RuleList.RemoveRule | src/app/app.component.ts:42-44 | The result holds exactly the rules whose id differs; no rule with the id is left. |
| RuleList.RemoveRuleKeepsOthers | src/app.component.ts:40-42 | The remaining rules keep their order and their number of occurrences. |
| RuleList.RemoveUndoesAdd | src/app.component.ts:25-42 | Removing the rule just added under a fresh id gives the list back. |
| RuleList.UpdateRule | src/app/app.component.ts:46-50 | Length, ids and positions are kept. Every rule with the updated id is replaced by the update, and all others stay. |
| RuleList.UpdateIdempotent | src/app.component.ts:44-48 | Updating twice with the same rule is updating once. |
| RuleList.UpdateAbsentId | src/app.component.ts:44-48 | An update whose id is in no rule changes nothing. |
| RuleList.ListOperationsKeepShape | src/app/app.component.ts:27-50 | Adding, removing and updating with a rule of the editor's shape keep every rule of the list renderable. |
| RuleList.SaveToApi | src/app/app.component.ts:56-66 | An empty list sends nothing and sets the error status with "Aucune règle à sauvegarder". Otherwise the whole list is sent and the status is saving. |
| RuleList.RemovingLastRuleBlocksSave | src/app/app.component.ts:42-63 | After removing the only rule, saving sends nothing. |
| Examples.PhraseLundiAuMercredi | src/app/services/schedule-generator.service.ts:67-68 | The run of weekdays 1 to 3 (Monday to Wednesday) reads "Lundi au Mercredi". |
| Examples.PhraseLundiMardi | src/app/services/schedule-generator.service.ts:69-70 | A two-day run lists both names: "Lundi, Mardi". |
| Examples.PhraseSingles | src/app/services/schedule-generator.service.ts:69-70 | A one-day run is that day's name: "Lundi", "Mercredi". |
| Examples.ClockOf | src/app/services/schedule-generator.service.ts:149 | The time "hh:mm" is shown as "hhHmm". |
| Examples.TwoSlots | src/app/services/schedule-generator.service.ts:148-150 | Two slots read "du S1 au E1 et du S2 au E2". |
| Examples.SilentRuleDropped | src/app/services/schedule-generator.service.ts:10-25 | A rule with no weekday renders nothing, even with `H24` hours. |

## Left out

- HTTP persistence (`src/app/services/api.service.ts`) is network I/O. The asynchronous success and error callbacks of `saveToAPI`, and their `setTimeout` resets of the status, are left out too; `SaveToApi` returns the request it would send instead of sending it.
- The editor templates are not part of this model. Typing into the date input (`TypeDate`) follows the value sanitization of an HTML date input, which yields a valid `YYYY-MM-DD` date or "".
- Angular wiring is left out: inputs and outputs, `EventEmitter`, signals, `ngOnChanges` with its JSON deep copy, `trackBy` helpers, module bootstrapping. An editor emission is a value in the transition's result.
- `toLocaleDateString('fr-FR', …)` is replaced by a French month-name table and the `dd/mm/yyyy` form. Locale data and time zones are not modelled.
- `new Date(s + 'T00:00:00')` is modelled as a parser of `YYYY-MM-DD` with a real calendar check. Some JavaScript engines roll an impossible day such as `2024-02-30` over into the next month. The other ECMAScript date-time forms are also accepted by JavaScript: `2024-06` + `T00:00:00` is 1 June 2024, and `2024` + `T00:00:00` is 1 January. Here all of these are unparseable, so a range written that way says nothing. The editors' date inputs only produce full `YYYY-MM-DD` dates.
- Years are at most four digits (`ValidDate`), as the storage format allows.
- ScheduleGenerator.DayPart: requires seven flags in the weekday variants and parseable strings in the dates variant. The source renders other inputs too, and the model does not state those outputs. With fewer than seven flags the weekly form names the set days ("Dimanche au Vendredi" for six set flags), and the daily-except form lists six exclusions after "Tous les jours sauf", since only exactly seven exclusions count as all. A flag at index 7 or beyond has no day name. In a run of more than two days the template literal prints it as `undefined` when it is the first or last day ("Vendredi au undefined"). In a run of one or two days `join(', ')` prints it as "", so a lone flag at index 7 renders "" and `generate` drops the rule, and flags 0 and 7 render "Dimanche, ". In the daily-except form `filter(Boolean)` drops the missing name, so an exclusion at index 7 or beyond is ignored. With eight flags and indices 1 to 7 set, the weekly form reads "Tous les jours" although Sunday is unset, because only the count of set flags is compared with 7. An unparseable date prints `NaN` text. The editor invariant (`RunKeepsInvariant`) shows the editor never builds such a rule.
- The `default: return ''` branches of `generateDayPart` and `generateTimePart` are unreachable: the pattern types are closed datatypes here.
- `generate`'s `!rules` and `formatDates`' `!dates` null checks have no counterpart: sequences are never null.
- Weekdays.FormatWeekly: its own contract states the empty and full cases only. The phrase for the other weeks is stated by `WeeklyPhraseOfMaximalRuns`, which quantifies over run partitions.
- `dates.sort()` compares UTF-16 code units. `SortStrings` compares characters, which is the same order for the ASCII date strings the date input produces.
- Rule ids are integers, with `Date.now()` as a parameter. Two rules added within the same millisecond would share an id; `RemoveRule` and `UpdateRule` then act on both, as the source does.
