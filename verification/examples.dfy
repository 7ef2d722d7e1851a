/** Worked cases of the renderer on concrete rules. */
module Examples {
  import opened Wrappers
  import opened Seqs
  import opened Strings
  import opened ScheduleModel
  import opened Weekdays
  import opened DateText
  import opened TimeText
  import opened ScheduleGenerator

  /** Three or more consecutive days collapse to their ends. */
  lemma PhraseLundiAuMercredi()
    ensures RunPhrase([1, 2, 3]) == "Lundi au Mercredi"
  {
    assert DayName(1) == "Lundi";
  }

  /** Two consecutive days are listed, not joined by "au". */
  lemma PhraseLundiMardi()
    ensures RunPhrase([1, 2]) == "Lundi, Mardi"
  {
    assert Map([1 as Weekday, 2], DayName) == ["Lundi", "Mardi"];
  }

  /** A run of one day is its name. */
  lemma PhraseSingles()
    ensures RunPhrase([1]) == "Lundi" && RunPhrase([3]) == "Mercredi"
  {
    assert Map([1 as Weekday], DayName) == ["Lundi"];
    assert Map([3 as Weekday], DayName) == ["Mercredi"];
  }

  /** `"HH:mm".replace(':', 'H')` on a time split into hours and minutes. */
  lemma ClockOf(h: string, m: string)
    requires WellFormedClock(h + ":" + m) && |h| == 2
    ensures ClockText(h + ":" + m) == h + "H" + m
  {
    var t := h + ":" + m;
    ClockTextRoundTrip(t);
    assert t[..2] == h && t[3..] == m;
  }

  /** Two slots are joined by " et ". */
  lemma TwoSlots(a: TimeSlot, b: TimeSlot)
    ensures TimePart(TimePattern(TimeRange, Some([a, b]))) == SlotPhrase(a) + " et " + SlotPhrase(b)
  {
    TimePartAppendSlot([a], b);
    assert [a] + [b] == [a, b];
    assert Map([a], SlotPhrase) == [SlotPhrase(a)];
  }

  /** A rule without a chosen weekday says nothing, whatever its hours; the
      whole schedule is then empty. */
  lemma SilentRuleDropped()
    ensures Generate([ScheduleRule(1, Weekly(NoDays), TimePattern(H24, None))], 2024) == ""
  {
  }
}
