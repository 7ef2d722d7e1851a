/** The editor of one rule: it keeps a local copy of the rule and the text
    of the date input, and every user action either leaves both alone or
    changes the copy and emits it to the parent (`emitChange`). The two
    editor components of the application (the one with `@Input` fields and
    the one with signals) perform the same transitions, so one model
    serves both. */
module RuleEditor {
  import opened Wrappers
  import opened Seqs
  import opened Strings
  import opened Calendar
  import opened ScheduleModel
  import opened DateText
  import opened TimeText
  import opened ScheduleGenerator

  /** What the editor sends to its parent: the changed rule (`ruleChange`)
      or the id of the rule to delete (`remove`). */
  datatype Emission = RuleChange(rule: ScheduleRule) | RemoveRequest(id: int)

  /** `localRule` (absent before the first input arrives) and `newDate`. */
  datatype Editor = Editor(local: Option<ScheduleRule>, newDate: string)

  /** The editor after an action and what the action emitted, if anything. */
  datatype Step = Step(editor: Editor, emitted: Option<Emission>)

  /** The local rule becomes `r` and is emitted. */
  function Changed(e: Editor, r: ScheduleRule): Step {
    Step(e.(local := Some(r)), Some(RuleChange(r)))
  }

  /** The step emitted the rule the editor now holds. */
  predicate EmitsLocal(s: Step) {
    s.editor.local.Some? && s.emitted == Some(RuleChange(s.editor.local.value))
  }

  // ---------------------------------------------------------------------------
  // pattern types

  /** `onDayPatternTypeChange`: selecting the type the rule already has does
      nothing; another type replaces the day pattern by that type's default
      and keeps the rest of the rule. */
  function OnDayPatternTypeChange(e: Editor, t: DayPatternType): (s: Step)
    ensures s.editor.newDate == e.newDate
    ensures s.editor.local.Some? <==> e.local.Some?
    ensures e.local.Some? ==> TypeOf(s.editor.local.value.dayPattern) == t
    ensures e.local.Some? ==>
      s.editor.local.value.id == e.local.value.id &&
      s.editor.local.value.timePattern == e.local.value.timePattern
    ensures s.emitted.Some? <==> e.local.Some? && TypeOf(e.local.value.dayPattern) != t
    ensures s.emitted.Some? ==> EmitsLocal(s) && s.editor.local.value.dayPattern == DefaultDayPattern(t)
    ensures s.emitted.None? ==> s.editor == e
  {
    match e.local
    case None => Step(e, None)
    case Some(rule) =>
      if TypeOf(rule.dayPattern) == t then Step(e, None)
      else Changed(e, rule.(dayPattern := DefaultDayPattern(t)))
  }

  /** Selecting a day-pattern type twice is selecting it once. */
  lemma DayTypeChangeIdempotent(e: Editor, t: DayPatternType)
    ensures OnDayPatternTypeChange(OnDayPatternTypeChange(e, t).editor, t).editor ==
      OnDayPatternTypeChange(e, t).editor
    ensures OnDayPatternTypeChange(OnDayPatternTypeChange(e, t).editor, t).emitted.None?
  {
  }

  /** What a freshly selected day pattern says: nothing yet, except the
      every-day-except pattern, which starts out excluding no day. */
  lemma DefaultDayPatternText(t: DayPatternType, currentYear: nat)
    ensures DayPart(DefaultDayPattern(t), currentYear) ==
      if t == DailyExceptType then "Tous les jours" else ""
  {
    if t == DateRangeType {
      assert FormatSingleDateRange(DateRange("", "")) == "";
    }
  }

  const MorningSlot := TimeSlot("08:00", "14:00")
  const EveningSlot := TimeSlot("18:00", "21:00")

  /** `timeSlots` is present exactly for the time-range type. */
  predicate SlotsMatchKind(tp: TimePattern) {
    tp.slots.Some? <==> tp.kind == TimeRange
  }

  /** `onTimePatternTypeChange`: the type is always set and the rule always
      emitted; the time-range type keeps existing slots or seeds the morning
      slot when there are none, and every other type drops the slots. */
  function OnTimePatternTypeChange(e: Editor, k: TimePatternType): (s: Step)
    ensures e.local.None? ==> s == Step(e, None)
    ensures e.local.Some? ==> EmitsLocal(s) && s.editor.newDate == e.newDate
    ensures e.local.Some? ==>
      var before, after := e.local.value, s.editor.local.value;
      && after.id == before.id && after.dayPattern == before.dayPattern
      && after.timePattern.kind == k
      && SlotsMatchKind(after.timePattern)
      && (k == TimeRange && before.timePattern.slots.Some? && |before.timePattern.slots.value| > 0 ==>
            after.timePattern.slots == before.timePattern.slots)
      && (k == TimeRange && (before.timePattern.slots.None? || |before.timePattern.slots.value| == 0) ==>
            after.timePattern.slots == Some([MorningSlot]))
  {
    match e.local
    case None => Step(e, None)
    case Some(rule) =>
      var slots := rule.timePattern.slots;
      var newSlots :=
        if k == TimeRange && (slots.None? || |slots.value| == 0) then Some([MorningSlot])
        else if k != TimeRange then None
        else slots;
      Changed(e, rule.(timePattern := TimePattern(k, newSlots)))
  }

  /** After any time-type change the rule's time part says something: the
      time-range type always ends up with at least one slot. */
  lemma TimeTypeChangeSaysSomething(e: Editor, k: TimePatternType)
    requires e.local.Some?
    ensures TimePart(OnTimePatternTypeChange(e, k).editor.local.value.timePattern) != ""
  {
  }

  // ---------------------------------------------------------------------------
  // toggles

  /** `flags[index] = !flags[index]` on a JavaScript array of booleans: inside
      the array one flag flips; past the end the array grows, the new
      position becomes `true` and the gap reads as `false`; a negative
      index sets a property that is not an element, so the elements stay. */
  function FlipAt(flags: seq<bool>, index: int): (r: seq<bool>)
    ensures index < 0 ==> r == flags
    ensures 0 <= index < |flags| ==>
      |r| == |flags| && r[index] == !flags[index] &&
      forall j :: 0 <= j < |flags| && j != index ==> r[j] == flags[j]
    ensures index >= |flags| ==>
      |r| == index + 1 && r[..|flags|] == flags && r[index] &&
      forall j :: |flags| <= j < index ==> !r[j]
  {
    if index < 0 then flags
    else if index < |flags| then flags[index := !flags[index]]
    else flags + seq(index - |flags|, _ => false) + [true]
  }

  /** Flipping a flag twice restores the flags. */
  lemma FlipTwice(flags: seq<bool>, index: int)
    requires index < |flags|
    ensures FlipAt(FlipAt(flags, index), index) == flags
  {
  }

  /** `toggleDay`: flips one weekday of a weekly pattern and emits; does
      nothing to any other pattern. */
  function ToggleDay(e: Editor, index: int): (s: Step)
    ensures !(e.local.Some? && e.local.value.dayPattern.Weekly?) ==> s == Step(e, None)
    ensures e.local.Some? && e.local.value.dayPattern.Weekly? ==>
      EmitsLocal(s) && s.editor.newDate == e.newDate &&
      s.editor.local.value == e.local.value.(dayPattern := Weekly(FlipAt(e.local.value.dayPattern.days, index)))
  {
    match e.local
    case Some(rule) =>
      if rule.dayPattern.Weekly? then
        Changed(e, rule.(dayPattern := Weekly(FlipAt(rule.dayPattern.days, index))))
      else Step(e, None)
    case None => Step(e, None)
  }

  /** `toggleExceptDay`: the same on the excluded days of an every-day-except
      pattern. */
  function ToggleExceptDay(e: Editor, index: int): (s: Step)
    ensures !(e.local.Some? && e.local.value.dayPattern.DailyExcept?) ==> s == Step(e, None)
    ensures e.local.Some? && e.local.value.dayPattern.DailyExcept? ==>
      EmitsLocal(s) && s.editor.newDate == e.newDate &&
      s.editor.local.value ==
        e.local.value.(dayPattern := DailyExcept(FlipAt(e.local.value.dayPattern.exceptDays, index)))
  {
    match e.local
    case Some(rule) =>
      if rule.dayPattern.DailyExcept? then
        Changed(e, rule.(dayPattern := DailyExcept(FlipAt(rule.dayPattern.exceptDays, index))))
      else Step(e, None)
    case None => Step(e, None)
  }

  /** Toggling the same weekday twice gives the editor back. */
  lemma ToggleDayTwice(e: Editor, index: int)
    requires e.local.Some? && e.local.value.dayPattern.Weekly?
    requires index < |e.local.value.dayPattern.days|
    ensures ToggleDay(ToggleDay(e, index).editor, index).editor == e
  {
    FlipTwice(e.local.value.dayPattern.days, index);
  }

  lemma ToggleExceptDayTwice(e: Editor, index: int)
    requires e.local.Some? && e.local.value.dayPattern.DailyExcept?
    requires index < |e.local.value.dayPattern.exceptDays|
    ensures ToggleExceptDay(ToggleExceptDay(e, index).editor, index).editor == e
  {
    FlipTwice(e.local.value.dayPattern.exceptDays, index);
  }

  // ---------------------------------------------------------------------------
  // explicit dates

  /** Every string occurs at most once. */
  predicate Distinct(s: seq<string>) {
    forall i, j :: 0 <= i < j < |s| ==> s[i] != s[j]
  }

  /** `addDate`: on an explicit-dates pattern with a date typed in, adds it
      unless it is already there, sorts the list, emits only when it added,
      and always clears the input. */
  function AddDate(e: Editor): (s: Step)
    ensures !(e.local.Some? && e.local.value.dayPattern.Dates? && e.newDate != "") ==> s == Step(e, None)
    ensures e.local.Some? && e.local.value.dayPattern.Dates? && e.newDate != "" ==>
      var before := e.local.value;
      && s.editor.newDate == ""
      && (s.emitted.Some? <==> e.newDate !in before.dayPattern.dates)
      && (e.newDate in before.dayPattern.dates ==> s.editor.local == e.local)
      && (e.newDate !in before.dayPattern.dates ==>
            EmitsLocal(s)
            && s.editor.local.value.id == before.id
            && s.editor.local.value.timePattern == before.timePattern
            && s.editor.local.value.dayPattern.Dates?
            && SortedStrings(s.editor.local.value.dayPattern.dates)
            && multiset(s.editor.local.value.dayPattern.dates) ==
                 multiset(before.dayPattern.dates) + multiset{e.newDate})
  {
    match e.local
    case Some(rule) =>
      if rule.dayPattern.Dates? && e.newDate != "" then
        var cleared := e.(newDate := "");
        if e.newDate in rule.dayPattern.dates then Step(cleared, None)
        else
          var dates := SortStrings(rule.dayPattern.dates + [e.newDate]);
          Changed(cleared, rule.(dayPattern := Dates(dates)))
      else Step(e, None)
    case None => Step(e, None)
  }

  /** Adding a date to a list without repetitions keeps it without
      repetitions, and the date is in the list afterwards. */
  lemma AddDateKeepsDistinct(e: Editor)
    requires e.local.Some? && e.local.value.dayPattern.Dates? && e.newDate != ""
    requires Distinct(e.local.value.dayPattern.dates)
    ensures var after := AddDate(e).editor.local.value.dayPattern;
      after.Dates? && Distinct(after.dates) && e.newDate in after.dates
  {
    var before := e.local.value.dayPattern.dates;
    var after := AddDate(e).editor.local.value.dayPattern;
    if e.newDate !in before {
      var added := before + [e.newDate];
      assert Distinct(added);
      DistinctCounts(added);
      assert multiset(after.dates) == multiset(added);
      CountsDistinct(after.dates);
      assert e.newDate in multiset(after.dates);
    }
  }

  /** The list `addDate` leaves is determined by its contents: it is the one
      ascending arrangement of the old dates and the typed one. */
  lemma AddDateListDetermined(e: Editor, t: seq<string>)
    requires e.local.Some? && e.local.value.dayPattern.Dates? && e.newDate != ""
    requires e.newDate !in e.local.value.dayPattern.dates
    requires SortedStrings(t)
    requires multiset(t) == multiset(e.local.value.dayPattern.dates) + multiset{e.newDate}
    ensures AddDate(e).editor.local.value.dayPattern.dates == t
  {
    SortedPermutationsEqual(AddDate(e).editor.local.value.dayPattern.dates, t);
  }

  lemma DistinctCounts(s: seq<string>)
    requires Distinct(s)
    ensures forall x :: multiset(s)[x] <= 1
    decreases |s|
  {
    if |s| > 0 {
      DistinctCounts(s[1..]);
      assert s == [s[0]] + s[1..];
      assert s[0] !in s[1..];
    }
  }

  lemma {:induction false} CountsDistinct(s: seq<string>)
    requires forall x :: multiset(s)[x] <= 1
    ensures Distinct(s)
    decreases |s|
  {
    if |s| > 0 {
      assert s == [s[0]] + s[1..];
      assert multiset(s) == multiset{s[0]} + multiset(s[1..]);
      assert multiset(s)[s[0]] <= 1;
      forall x
        ensures multiset(s[1..])[x] <= 1
      {
        assert multiset(s[1..])[x] <= multiset(s)[x];
      }
      CountsDistinct(s[1..]);
      forall i, j | 0 <= i < j < |s|
        ensures s[i] != s[j]
      {
        if i > 0 {
          assert s[i] == s[1..][i - 1] && s[j] == s[1..][j - 1];
        } else {
          assert s[j] in multiset(s[1..]);
        }
      }
    }
  }

  /** Everything but `d`. */
  function Other(d: string): string -> bool {
    x => x != d
  }

  /** `removeDate`: on an explicit-dates pattern, drops every copy of the
      date and emits; does nothing to any other pattern. */
  function RemoveDate(e: Editor, d: string): (s: Step)
    ensures !(e.local.Some? && e.local.value.dayPattern.Dates?) ==> s == Step(e, None)
    ensures e.local.Some? && e.local.value.dayPattern.Dates? ==>
      EmitsLocal(s) && s.editor.newDate == e.newDate
    ensures e.local.Some? && e.local.value.dayPattern.Dates? ==>
      var before, after := e.local.value, s.editor.local.value;
      && after.id == before.id && after.timePattern == before.timePattern
      && after.dayPattern.Dates?
      && d !in after.dayPattern.dates
      && forall x :: x in before.dayPattern.dates && x != d ==> x in after.dayPattern.dates
  {
    match e.local
    case Some(rule) =>
      if rule.dayPattern.Dates? then
        Changed(e, rule.(dayPattern := Dates(Filter(rule.dayPattern.dates, Other(d)))))
      else Step(e, None)
    case None => Step(e, None)
  }

  /** Removing a date keeps the other dates in their order and as often as
      they occurred. */
  lemma RemoveDateKeepsOthers(e: Editor, d: string)
    requires e.local.Some? && e.local.value.dayPattern.Dates?
    ensures var before, after := e.local.value.dayPattern.dates, RemoveDate(e, d).editor.local.value.dayPattern.dates;
      && IsSubsequence(after, before)
      && multiset(after)[d] == 0
      && forall x :: x != d ==> multiset(after)[x] == multiset(before)[x]
  {
    FilterIsSubsequence(e.local.value.dayPattern.dates, Other(d));
    FilterCounts(e.local.value.dayPattern.dates, Other(d));
  }

  // ---------------------------------------------------------------------------
  // time slots

  /** `addTimeSlot`: appends the evening slot when the rule has a slot list
      (even an empty one) and emits. */
  function AddTimeSlot(e: Editor): (s: Step)
    ensures !(e.local.Some? && e.local.value.timePattern.slots.Some?) ==> s == Step(e, None)
    ensures e.local.Some? && e.local.value.timePattern.slots.Some? ==>
      EmitsLocal(s) && s.editor.newDate == e.newDate
    ensures e.local.Some? && e.local.value.timePattern.slots.Some? ==>
      var before, after := e.local.value, s.editor.local.value;
      && after.id == before.id && after.dayPattern == before.dayPattern
      && after.timePattern.kind == before.timePattern.kind
      && after.timePattern.slots == Some(before.timePattern.slots.value + [EveningSlot])
  {
    match e.local
    case Some(rule) =>
      (match rule.timePattern.slots
       case Some(slots) => Changed(e, rule.(timePattern := rule.timePattern.(slots := Some(slots + [EveningSlot]))))
       case None => Step(e, None))
    case None => Step(e, None)
  }

  /** `removeTimeSlot`: `splice(index, 1)` on the slot list when there is
      one, and emits. */
  function RemoveTimeSlot(e: Editor, index: int): (s: Step)
    ensures !(e.local.Some? && e.local.value.timePattern.slots.Some?) ==> s == Step(e, None)
    ensures e.local.Some? && e.local.value.timePattern.slots.Some? ==>
      EmitsLocal(s) && s.editor.newDate == e.newDate
    ensures e.local.Some? && e.local.value.timePattern.slots.Some? ==>
      var before, after := e.local.value, s.editor.local.value;
      && after.id == before.id && after.dayPattern == before.dayPattern
      && after.timePattern.kind == before.timePattern.kind
      && after.timePattern.slots == Some(SpliceOne(before.timePattern.slots.value, index))
  {
    match e.local
    case Some(rule) =>
      (match rule.timePattern.slots
       case Some(slots) => Changed(e, rule.(timePattern := rule.timePattern.(slots := Some(SpliceOne(slots, index)))))
       case None => Step(e, None))
    case None => Step(e, None)
  }

  /** Removing the slot just added gives the editor back. */
  lemma RemoveTimeSlotUndoesAdd(e: Editor)
    requires e.local.Some? && e.local.value.timePattern.slots.Some?
    ensures RemoveTimeSlot(AddTimeSlot(e).editor, |e.local.value.timePattern.slots.value|).editor == e
  {
    var rule := e.local.value;
    var slots := rule.timePattern.slots.value;
    SpliceOneLast(slots, EveningSlot);
    assert rule.(timePattern := rule.timePattern.(slots := Some(slots))) == rule;
  }

  /** Removing the slot at position `i` removes exactly that slot. */
  lemma RemoveTimeSlotAt(e: Editor, i: nat)
    requires e.local.Some? && e.local.value.timePattern.slots.Some?
    requires i < |e.local.value.timePattern.slots.value|
    ensures var before, after := e.local.value.timePattern.slots.value,
                                  RemoveTimeSlot(e, i).editor.local.value.timePattern.slots.value;
      && |after| == |before| - 1
      && (forall j :: 0 <= j < i ==> after[j] == before[j])
      && (forall j :: i <= j < |after| ==> after[j] == before[j + 1])
  {
  }

  // ---------------------------------------------------------------------------
  // date ranges

  const EmptyRange := DateRange("", "")

  /** `addDateRange`: appends an unset range to a date-ranges pattern and
      emits. */
  function AddDateRange(e: Editor): (s: Step)
    ensures !(e.local.Some? && e.local.value.dayPattern.DateRanges?) ==> s == Step(e, None)
    ensures e.local.Some? && e.local.value.dayPattern.DateRanges? ==>
      EmitsLocal(s) && s.editor.newDate == e.newDate
    ensures e.local.Some? && e.local.value.dayPattern.DateRanges? ==>
      var before, after := e.local.value, s.editor.local.value;
      && after.id == before.id && after.timePattern == before.timePattern
      && after.dayPattern == DateRanges(before.dayPattern.ranges + [EmptyRange])
  {
    match e.local
    case Some(rule) =>
      if rule.dayPattern.DateRanges? then
        Changed(e, rule.(dayPattern := DateRanges(rule.dayPattern.ranges + [EmptyRange])))
      else Step(e, None)
    case None => Step(e, None)
  }

  /** `removeDateRange`: `splice(index, 1)` on the ranges, only while more
      than one range is left, and emits. */
  function RemoveDateRange(e: Editor, index: int): (s: Step)
    ensures !(e.local.Some? && e.local.value.dayPattern.DateRanges? && |e.local.value.dayPattern.ranges| > 1) ==>
      s == Step(e, None)
    ensures e.local.Some? && e.local.value.dayPattern.DateRanges? && |e.local.value.dayPattern.ranges| > 1 ==>
      EmitsLocal(s) && s.editor.newDate == e.newDate
    ensures e.local.Some? && e.local.value.dayPattern.DateRanges? && |e.local.value.dayPattern.ranges| > 1 ==>
      var before, after := e.local.value, s.editor.local.value;
      && after.id == before.id && after.timePattern == before.timePattern
      && after.dayPattern == DateRanges(SpliceOne(before.dayPattern.ranges, index))
      && |after.dayPattern.ranges| >= 1
  {
    match e.local
    case Some(rule) =>
      if rule.dayPattern.DateRanges? && |rule.dayPattern.ranges| > 1 then
        Changed(e, rule.(dayPattern := DateRanges(SpliceOne(rule.dayPattern.ranges, index))))
      else Step(e, None)
    case None => Step(e, None)
  }

  /** Removing the range just added gives the editor back, provided there
      was a range before. */
  lemma RemoveDateRangeUndoesAdd(e: Editor)
    requires e.local.Some? && e.local.value.dayPattern.DateRanges?
    requires |e.local.value.dayPattern.ranges| >= 1
    ensures RemoveDateRange(AddDateRange(e).editor, |e.local.value.dayPattern.ranges|).editor == e
  {
    var rule := e.local.value;
    var ranges := rule.dayPattern.ranges;
    SpliceOneLast(ranges, EmptyRange);
    assert rule.(dayPattern := DateRanges(ranges)) == rule;
  }

  /** Adding an unset range leaves the rendered ranges as they were. */
  lemma AddDateRangeSilent(e: Editor)
    requires e.local.Some? && e.local.value.dayPattern.DateRanges?
    ensures FormatDateRanges(AddDateRange(e).editor.local.value.dayPattern.ranges) ==
      FormatDateRanges(e.local.value.dayPattern.ranges)
  {
    var ranges := e.local.value.dayPattern.ranges;
    assert FormatSingleDateRange(EmptyRange) == "";
    SilentRangeIgnored(ranges, EmptyRange, []);
    assert ranges + [EmptyRange] + [] == ranges + [EmptyRange];
    assert ranges + [] == ranges;
  }

  // ---------------------------------------------------------------------------
  // the date input

  /** Typing into the date input bound to `newDate`. An HTML date input
      hands over only a complete `YYYY-MM-DD` date or the empty string (its
      value sanitization), so any other text arrives as "". Nothing is
      emitted and the rule is untouched. */
  function TypeDate(e: Editor, text: string): (s: Step)
    ensures s.emitted.None? && s.editor.local == e.local
    ensures s.editor.newDate == "" || ParseDate(s.editor.newDate).Some?
    ensures ParseDate(text).Some? ==> s.editor.newDate == text
  {
    Step(e.(newDate := if ParseDate(text).Some? then text else ""), None)
  }

  /** Typing a date and pressing "add" puts that date into the rule's list
      and clears the input; a date already there is not added twice. */
  lemma TypeThenAddDate(e: Editor, text: string)
    requires e.local.Some? && e.local.value.dayPattern.Dates?
    requires ParseDate(text).Some?
    ensures var s := AddDate(TypeDate(e, text).editor);
      && s.editor.newDate == ""
      && s.editor.local.Some? && s.editor.local.value.dayPattern.Dates?
      && text in s.editor.local.value.dayPattern.dates
      && (s.emitted.Some? <==> text !in e.local.value.dayPattern.dates)
  {
    var typed := TypeDate(e, text).editor;
    var s := AddDate(typed);
    assert typed.newDate == text && text != "";
    if text !in e.local.value.dayPattern.dates {
      assert text in multiset(s.editor.local.value.dayPattern.dates);
    }
  }

  // ---------------------------------------------------------------------------
  // removal

  /** `emitRemove`: asks the parent to delete the rule, changing nothing. */
  function EmitRemove(e: Editor): (s: Step)
    ensures s.editor == e
    ensures s.emitted.Some? <==> e.local.Some?
    ensures e.local.Some? ==> s.emitted == Some(RemoveRequest(e.local.value.id))
  {
    match e.local
    case Some(rule) => Step(e, Some(RemoveRequest(rule.id)))
    case None => Step(e, None)
  }

  // ---------------------------------------------------------------------------
  // the editor's invariant

  /** The shape every rule has from its creation on: what the renderer
      needs (seven flags, parseable dates), at least one date range, and a
      slot list exactly for the time-range type. */
  predicate RuleShape(r: ScheduleRule) {
    && WellFormedDays(r.dayPattern)
    && (r.dayPattern.DateRanges? ==> |r.dayPattern.ranges| >= 1)
    && SlotsMatchKind(r.timePattern)
  }

  /** The editor holds a rule of that shape, and the date input holds
      nothing or a `YYYY-MM-DD` date, the only values a date input yields. */
  predicate EditorInvariant(e: Editor) {
    && (e.local.Some? ==> RuleShape(e.local.value))
    && (e.newDate == "" || ParseDate(e.newDate).Some?)
  }

  /** The user actions the editor's template offers: its buttons and
      selects (the weekday buttons pass indices 0 to 6) and typing into the
      date input. */
  datatype Action =
    | SelectDayType(dayType: DayPatternType)
    | SelectTimeType(timeType: TimePatternType)
    | PressDay(day: Weekday)
    | PressExceptDay(exceptDay: Weekday)
    | PressAddDate
    | PressRemoveDate(date: string)
    | PressAddSlot
    | PressRemoveSlot(slotIndex: int)
    | PressAddRange
    | PressRemoveRange(rangeIndex: int)
    | PressRemoveRule
    | TypeNewDate(text: string)

  function Apply(e: Editor, a: Action): Step {
    match a
    case SelectDayType(t) => OnDayPatternTypeChange(e, t)
    case SelectTimeType(k) => OnTimePatternTypeChange(e, k)
    case PressDay(i) => ToggleDay(e, i)
    case PressExceptDay(i) => ToggleExceptDay(e, i)
    case PressAddDate => AddDate(e)
    case PressRemoveDate(d) => RemoveDate(e, d)
    case PressAddSlot => AddTimeSlot(e)
    case PressRemoveSlot(i) => RemoveTimeSlot(e, i)
    case PressAddRange => AddDateRange(e)
    case PressRemoveRange(i) => RemoveDateRange(e, i)
    case PressRemoveRule => EmitRemove(e)
    case TypeNewDate(text) => TypeDate(e, text)
  }

  /** Sorting after adding a date keeps every date parseable. */
  lemma SortedDatesParse(dates: seq<string>, d: string)
    requires WellFormedDays(Dates(dates))
    requires ParseDate(d).Some?
    ensures WellFormedDays(Dates(SortStrings(dates + [d])))
  {
    var added := dates + [d];
    var sorted := SortStrings(added);
    forall i | 0 <= i < |sorted|
      ensures ParseDate(sorted[i]).Some?
    {
      assert sorted[i] in multiset(sorted);
      assert sorted[i] in added;
    }
  }

  /** A step ends in an editor that keeps the invariant, and a rule it
      emits has the shape. */
  predicate KeepsShape(s: Step) {
    && EditorInvariant(s.editor)
    && (s.emitted.Some? && s.emitted.value.RuleChange? ==> RuleShape(s.emitted.value.rule))
  }

  /** Every action keeps the invariant, and every rule the editor emits has
      the shape, so the parent can always render it. */
  lemma ApplyKeepsInvariant(e: Editor, a: Action)
    requires EditorInvariant(e)
    ensures KeepsShape(Apply(e, a))
  {
    match a
    case SelectDayType(t) => DayTypeKeepsShape(e, t);
    case SelectTimeType(k) => TimeTypeKeepsShape(e, k);
    case PressDay(i) => ToggleKeepsShape(e, i);
    case PressExceptDay(i) => ToggleKeepsShape(e, i);
    case PressAddDate => AddDateKeepsShape(e);
    case PressRemoveDate(d) => RemoveDateKeepsShape(e, d);
    case PressAddSlot => SlotsKeepShape(e, 0);
    case PressRemoveSlot(i) => SlotsKeepShape(e, i);
    case PressAddRange => RangesKeepShape(e, 0);
    case PressRemoveRange(i) => RangesKeepShape(e, i);
    case PressRemoveRule =>
    case TypeNewDate(text) =>
  }

  lemma DayTypeKeepsShape(e: Editor, t: DayPatternType)
    requires EditorInvariant(e)
    ensures KeepsShape(OnDayPatternTypeChange(e, t))
  {
  }

  lemma TimeTypeKeepsShape(e: Editor, k: TimePatternType)
    requires EditorInvariant(e)
    ensures KeepsShape(OnTimePatternTypeChange(e, k))
  {
  }

  lemma ToggleKeepsShape(e: Editor, i: Weekday)
    requires EditorInvariant(e)
    ensures KeepsShape(ToggleDay(e, i))
    ensures KeepsShape(ToggleExceptDay(e, i))
  {
  }

  lemma AddDateKeepsShape(e: Editor)
    requires EditorInvariant(e)
    ensures KeepsShape(AddDate(e))
  {
    if e.local.Some? && e.local.value.dayPattern.Dates? && e.newDate != "" {
      var rule := e.local.value;
      var dates := rule.dayPattern.dates;
      if e.newDate !in dates {
        var sorted := SortStrings(dates + [e.newDate]);
        var r := rule.(dayPattern := Dates(sorted));
        assert AddDate(e) == Changed(e.(newDate := ""), r);
        SortedDatesParse(dates, e.newDate);
        assert WellFormedDays(r.dayPattern);
        assert RuleShape(r);
      } else {
        assert AddDate(e) == Step(e.(newDate := ""), None);
      }
    }
  }

  lemma RemoveDateKeepsShape(e: Editor, d: string)
    requires EditorInvariant(e)
    ensures KeepsShape(RemoveDate(e, d))
  {
    if e.local.Some? && e.local.value.dayPattern.Dates? {
      var dates := e.local.value.dayPattern.dates;
      var kept := Filter(dates, Other(d));
      forall i | 0 <= i < |kept|
        ensures ParseDate(kept[i]).Some?
      {
        assert kept[i] in dates;
      }
    }
  }

  lemma SlotsKeepShape(e: Editor, i: int)
    requires EditorInvariant(e)
    ensures KeepsShape(AddTimeSlot(e))
    ensures KeepsShape(RemoveTimeSlot(e, i))
  {
  }

  lemma RangesKeepShape(e: Editor, i: int)
    requires EditorInvariant(e)
    ensures KeepsShape(AddDateRange(e))
    ensures KeepsShape(RemoveDateRange(e, i))
  {
  }

  /** The editor after a sequence of actions. */
  function Run(e: Editor, actions: seq<Action>): Editor
    decreases |actions|
  {
    if |actions| == 0 then e else Run(Apply(e, actions[0]).editor, actions[1..])
  }

  /** No sequence of actions breaks the invariant: the rule being edited can
      be rendered at every moment. */
  lemma {:induction false} RunKeepsInvariant(e: Editor, actions: seq<Action>)
    requires EditorInvariant(e)
    ensures EditorInvariant(Run(e, actions))
    ensures Run(e, actions).local.Some? ==> WellFormedDays(Run(e, actions).local.value.dayPattern)
    decreases |actions|
  {
    if |actions| > 0 {
      ApplyKeepsInvariant(e, actions[0]);
      RunKeepsInvariant(Apply(e, actions[0]).editor, actions[1..]);
    }
  }
}
