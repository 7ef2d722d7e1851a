/** The two date-based day-pattern renderers of the schedule generator:
    explicit dates, grouped by calendar month, and lists of date ranges. */
module DateText {
  import opened Wrappers
  import opened Seqs
  import opened Strings
  import opened Calendar
  import opened ScheduleModel

  // ---------------------------------------------------------------------------
  // explicit dates

  /** The days of month collected under one `month year` key. */
  datatype MonthGroup = MonthGroup(month: Month, year: nat, days: seq<nat>)

  /** The dates a group stands for. */
  function GroupDates(g: MonthGroup): seq<Date> {
    Map(g.days, d => Date(g.year, g.month, d))
  }

  function Expand(gs: seq<MonthGroup>): seq<Date> {
    if |gs| == 0 then [] else GroupDates(gs[0]) + Expand(gs[1..])
  }

  predicate InGroup(d: Date, g: MonthGroup) {
    d.month == g.month && d.year == g.year
  }

  /** Group `g` belongs to an earlier month than group `h`. */
  predicate MonthBefore(g: MonthGroup, h: MonthGroup) {
    g.year < h.year || (g.year == h.year && g.month < h.month)
  }

  /** Groups in strictly increasing month order. */
  ghost predicate Chronological(gs: seq<MonthGroup>) {
    forall i, j :: 0 <= i < j < |gs| ==> MonthBefore(gs[i], gs[j])
  }

  /** The grouping `reduce` of the dates renderer, on dates already in
      order: a date joins the group of its neighbour when both lie in the same
      month of the same year. */
  function GroupByMonth(ds: seq<Date>): (gs: seq<MonthGroup>)
    ensures |gs| > 0 <==> |ds| > 0
    ensures |ds| > 0 ==> InGroup(ds[0], gs[0])
    ensures forall k :: 0 <= k < |gs| ==> |gs[k].days| > 0
    ensures Expand(gs) == ds
  {
    if |ds| == 0 then []
    else
      var rest := GroupByMonth(ds[1..]);
      assert ds == [ds[0]] + ds[1..];
      if |rest| > 0 && InGroup(ds[0], rest[0]) then
        var g := rest[0].(days := [ds[0].day] + rest[0].days);
        assert GroupDates(g) == [ds[0]] + GroupDates(rest[0]);
        var gs := [g] + rest[1..];
        assert gs[1..] == rest[1..];
        gs
      else
        var g := MonthGroup(ds[0].month, ds[0].year, [ds[0].day]);
        assert GroupDates(g) == [ds[0]];
        var gs := [g] + rest;
        assert gs[1..] == rest;
        gs
  }

  /** On sorted dates, the groups follow each other month by month, so no
      two groups share a key. */
  lemma {:induction false} GroupsChronological(ds: seq<Date>)
    requires SortedDates(ds)
    ensures Chronological(GroupByMonth(ds))
    decreases |ds|
  {
    if |ds| > 1 {
      GroupsChronological(ds[1..]);
      var gs := GroupByMonth(ds);
      var rest := GroupByMonth(ds[1..]);
      assert InGroup(ds[1], rest[0]);
      assert DateLe(ds[0], ds[1]);
      if InGroup(ds[0], rest[0]) {
        assert gs == [rest[0].(days := [ds[0].day] + rest[0].days)] + rest[1..];
        forall i, j | 0 <= i < j < |gs|
          ensures MonthBefore(gs[i], gs[j])
        {
          assert MonthBefore(rest[i], rest[j]);
        }
      } else {
        assert gs == [MonthGroup(ds[0].month, ds[0].year, [ds[0].day])] + rest;
        forall i, j | 0 <= i < j < |gs|
          ensures MonthBefore(gs[i], gs[j])
        {
          if i == 0 {
            assert MonthBefore(gs[0], rest[0]);
            if j > 1 {
              assert MonthBefore(rest[0], rest[j - 1]);
            }
          } else {
            assert MonthBefore(rest[i - 1], rest[j - 1]);
          }
        }
      }
    }
  }

  /** The test "lies in month `m` of year `y`". */
  function InMonth(m: Month, y: nat): Date -> bool {
    (d: Date) => d.month == m && d.year == y
  }

  function DayOf(d: Date): nat {
    d.day
  }

  /** The days of `ds` that lie in month `m` of year `y`, in order. */
  function DaysIn(ds: seq<Date>, m: Month, y: nat): seq<nat> {
    Map(Filter(ds, InMonth(m, y)), DayOf)
  }

  lemma DaysInCons(d: Date, t: seq<Date>, m: Month, y: nat)
    ensures DaysIn([d] + t, m, y) ==
      (if d.month == m && d.year == y then [d.day] else []) + DaysIn(t, m, y)
  {
    FilterAppend([d], t, InMonth(m, y));
    assert Filter([d], InMonth(m, y)) == if d.month == m && d.year == y then [d] else [];
  }

  /** Every group holds exactly the days of its month, in order. */
  ghost predicate HoldTheirMonth(gs: seq<MonthGroup>, ds: seq<Date>) {
    forall k :: 0 <= k < |gs| ==> gs[k].days == DaysIn(ds, gs[k].month, gs[k].year)
  }

  /** On sorted dates, every group holds exactly the days of its month, in
      order, as the keyed accumulation of the source builds them. */
  lemma {:induction false} GroupsHoldTheirMonth(ds: seq<Date>)
    requires SortedDates(ds)
    ensures HoldTheirMonth(GroupByMonth(ds), ds)
    decreases |ds|
  {
    if |ds| > 0 {
      var t := ds[1..];
      GroupsHoldTheirMonth(t);
      GroupsChronological(t);
      var rest := GroupByMonth(t);
      assert ds == [ds[0]] + t;
      if |rest| > 0 && InGroup(ds[0], rest[0]) {
        HoldAfterMerge(ds[0], t, rest);
      } else {
        HoldAfterNewGroup(ds, rest);
      }
    }
  }

  lemma HoldAfterMerge(d: Date, t: seq<Date>, rest: seq<MonthGroup>)
    requires |rest| > 0 && InGroup(d, rest[0])
    requires HoldTheirMonth(rest, t) && Chronological(rest)
    ensures HoldTheirMonth([rest[0].(days := [d.day] + rest[0].days)] + rest[1..], [d] + t)
  {
    var gs := [rest[0].(days := [d.day] + rest[0].days)] + rest[1..];
    forall k | 0 <= k < |gs|
      ensures gs[k].days == DaysIn([d] + t, gs[k].month, gs[k].year)
    {
      DaysInCons(d, t, gs[k].month, gs[k].year);
      if k > 0 {
        assert gs[k] == rest[k];
        assert MonthBefore(rest[0], rest[k]);
      }
    }
  }

  lemma HoldAfterNewGroup(ds: seq<Date>, rest: seq<MonthGroup>)
    requires SortedDates(ds) && |ds| > 0
    requires rest == GroupByMonth(ds[1..])
    requires !(|rest| > 0 && InGroup(ds[0], rest[0]))
    requires HoldTheirMonth(rest, ds[1..]) && Chronological(rest)
    ensures HoldTheirMonth([MonthGroup(ds[0].month, ds[0].year, [ds[0].day])] + rest, ds)
  {
    var d, t := ds[0], ds[1..];
    assert ds == [d] + t;
    var g0 := MonthGroup(d.month, d.year, [d.day]);
    var gs := [g0] + rest;
    if |rest| > 0 {
      assert InGroup(ds[1], rest[0]);
      assert DateLe(ds[0], ds[1]);
      assert MonthBefore(g0, rest[0]);
    }
    forall k | 0 <= k < |gs|
      ensures gs[k].days == DaysIn(ds, gs[k].month, gs[k].year)
    {
      DaysInCons(d, t, gs[k].month, gs[k].year);
      if k == 0 {
        LaterMonthsOnly(ds, d.month, d.year);
      } else {
        assert gs[k] == rest[k - 1];
        if k > 1 {
          assert MonthBefore(rest[0], rest[k - 1]);
        }
      }
    }
  }

  /** When the second date lies in another month than the first, no later
      date lies in the first one's month. */
  lemma LaterMonthsOnly(ds: seq<Date>, m: Month, y: nat)
    requires SortedDates(ds) && |ds| > 0 && ds[0].month == m && ds[0].year == y
    requires |ds| > 1 ==> !(ds[1].month == m && ds[1].year == y)
    ensures DaysIn(ds[1..], m, y) == []
  {
    forall x | x in ds[1..]
      ensures !InMonth(m, y)(x)
    {
      var j :| 1 <= j < |ds| && ds[j] == x;
      assert DateLe(ds[0], ds[1]) && DateLe(ds[1], ds[j]);
    }
    FilterKeepsNone(ds[1..], InMonth(m, y));
  }

  /** `month.replace(` ${year}`, '')` where `month` is the `month year`
      label of `toLocaleDateString` and `year` the current year. */
  function MonthLabel(m: Month, y: nat, currentYear: nat): string {
    ReplaceFirst(MonthName(m) + " " + NatToString(y), " " + NatToString(currentYear), "")
  }

  /** The only space of a month label is the one before the year, so the
      replacement cuts the current year's digits off right after it when
      they start the label's year, and changes nothing otherwise. */
  lemma MonthLabelCuts(m: Month, y: nat, currentYear: nat)
    ensures var name, ys, cs := MonthName(m), NatToString(y), NatToString(currentYear);
      && (cs <= ys ==> MonthLabel(m, y, currentYear) == name + ys[|cs|..])
      && (!(cs <= ys) ==> MonthLabel(m, y, currentYear) == name + " " + ys)
  {
    MonthNameLetters(m);
    ReplaceAfterWord(MonthName(m), NatToString(y), NatToString(currentYear));
  }

  /** Replacing " " + cs in `word + " " + ys`, where the word has no space
      and ys holds only digits. */
  lemma ReplaceAfterWord(word: string, ys: string, cs: string)
    requires forall i :: 0 <= i < |word| ==> word[i] != ' '
    requires AllDigits(ys)
    ensures cs <= ys ==> ReplaceFirst(word + " " + ys, " " + cs, "") == word + ys[|cs|..]
    ensures !(cs <= ys) ==> ReplaceFirst(word + " " + ys, " " + cs, "") == word + " " + ys
  {
    if cs <= ys {
      ReplaceAtWord(word, ys, cs);
    } else {
      LabelOccurrence(word, ys, cs);
      OccursOnlyAfterWord(word, ys, cs);
    }
  }

  /** The year's leading digits match: they go, with the space. */
  lemma ReplaceAtWord(word: string, ys: string, cs: string)
    requires forall i :: 0 <= i < |word| ==> word[i] != ' '
    requires AllDigits(ys) && cs <= ys
    ensures ReplaceFirst(word + " " + ys, " " + cs, "") == word + ys[|cs|..]
  {
    var s, pat := word + " " + ys, " " + cs;
    LabelOccurrence(word, ys, cs);
    OccursOnlyAfterWord(word, ys, cs);
    LabelSlices(word, ys, cs);
    assert FirstOccurrence(s, pat, |word|);
    assert ReplaceFirst(s, pat, "") == s[..|word|] + "" + s[|word| + |pat|..];
  }

  /** The pieces of a label around the matched " " + cs. */
  lemma LabelSlices(word: string, ys: string, cs: string)
    requires cs <= ys
    ensures (word + " " + ys)[..|word|] == word
    ensures (word + " " + ys)[|word| + |" " + cs|..] == ys[|cs|..]
  {
  }

  /** The pattern " " + cs can only occur at the label's one space. */
  lemma OccursOnlyAfterWord(word: string, ys: string, cs: string)
    requires forall i :: 0 <= i < |word| ==> word[i] != ' '
    requires AllDigits(ys)
    ensures forall p :: OccursAt(word + " " + ys, " " + cs, p) ==> p == |word|
  {
    var s, pat := word + " " + ys, " " + cs;
    forall p | OccursAt(s, pat, p)
      ensures p == |word|
    {
      assert s[p..p + |pat|][0] == pat[0];
      SpaceAfterWordOnly(word, ys, p);
    }
  }

  lemma SpaceAfterWordOnly(word: string, ys: string, p: int)
    requires forall i :: 0 <= i < |word| ==> word[i] != ' '
    requires AllDigits(ys)
    requires 0 <= p < |word| + 1 + |ys| && (word + " " + ys)[p] == ' '
    ensures p == |word|
  {
  }

  /** The pattern " " + cs occurs right after the word exactly when cs
      starts ys. */
  lemma LabelOccurrence(word: string, ys: string, cs: string)
    ensures OccursAt(word + " " + ys, " " + cs, |word|) <==> cs <= ys
  {
    var s := word + " " + ys;
    if |cs| <= |ys| {
      assert s[|word|..|word| + 1 + |cs|] == " " + ys[..|cs|];
      assert (" " + ys[..|cs|])[1..] == ys[..|cs|];
      assert (" " + cs)[1..] == cs;
    }
  }

  /** With four-digit years, the year is dropped from a month label exactly
      when it is the current year. */
  lemma MonthLabelDropsOnlyCurrentYear(m: Month, y: nat, currentYear: nat)
    requires 1000 <= y <= 9999 && 1000 <= currentYear <= 9999
    ensures y == currentYear ==> MonthLabel(m, y, currentYear) == MonthName(m)
    ensures y != currentYear ==> MonthLabel(m, y, currentYear) == MonthName(m) + " " + NatToString(y)
  {
    MonthLabelCuts(m, y, currentYear);
    NatToStringFourDigits(y);
    NatToStringFourDigits(currentYear);
    var ys, cs := NatToString(y), NatToString(currentYear);
    if cs <= ys {
      assert cs == ys;
      NatToStringInjective(y, currentYear);
    }
  }

  /** One month group: its day numbers joined by ", ", then the label. */
  function GroupPhrase(g: MonthGroup, currentYear: nat): (r: string)
    ensures |r| > 0
    ensures |g.days| > 0 ==> IsDigit(r[0])
    ensures r == Join(Map(g.days, NatToString), ", ") + " " + MonthLabel(g.month, g.year, currentYear)
  {
    var numbers := Map(g.days, NatToString);
    assert |g.days| > 0 ==> numbers[0] == NatToString(g.days[0]);
    Join(numbers, ", ") + " " + MonthLabel(g.month, g.year, currentYear)
  }

  /** Every stored string parsed, in the same order. */
  function ParseAll(dates: seq<string>): (r: seq<Date>)
    requires forall i :: 0 <= i < |dates| ==> ParseDate(dates[i]).Some?
    ensures |r| == |dates|
    ensures forall i :: 0 <= i < |dates| ==> ParseDate(dates[i]) == Some(r[i])
  {
    seq(|dates|, i requires 0 <= i < |dates| && ParseDate(dates[i]).Some? => ParseDate(dates[i]).value)
  }

  /** The explicit-dates phrase: nothing for no date; otherwise the dates in
      chronological order, one phrase per month, joined by ", ". */
  function FormatDates(dates: seq<string>, currentYear: nat): (r: string)
    requires forall i :: 0 <= i < |dates| ==> ParseDate(dates[i]).Some?
    ensures r == "" <==> |dates| == 0
    ensures r != "" ==> IsDigit(r[0])
  {
    if |dates| == 0 then ""
    else
      var groups := GroupByMonth(SortDates(ParseAll(dates)));
      var phrases := Map(groups, g => GroupPhrase(g, currentYear));
      assert phrases[0] == GroupPhrase(groups[0], currentYear);
      Join(phrases, ", ")
  }

  /** The phrase of a list of dates is the ", "-join, month by month in
      chronological order, of the days of that month in ascending order, as
      the source's sort-then-group-by-label computes it. */
  lemma DatesPhraseByMonth(dates: seq<string>, currentYear: nat)
    requires |dates| > 0
    requires forall i :: 0 <= i < |dates| ==> ParseDate(dates[i]).Some?
    ensures var sorted := SortDates(ParseAll(dates));
      var gs := GroupByMonth(sorted);
      && multiset(sorted) == multiset(ParseAll(dates))
      && Chronological(gs)
      && HoldTheirMonth(gs, sorted)
      && FormatDates(dates, currentYear) == Join(Map(gs, g => GroupPhrase(g, currentYear)), ", ")
  {
    var sorted := SortDates(ParseAll(dates));
    GroupsChronological(sorted);
    GroupsHoldTheirMonth(sorted);
  }

  // ---------------------------------------------------------------------------
  // date ranges

  /** One range: nothing when an end is empty or unparseable; otherwise
      "du d1 au d2 M" within one month, "du d1 M1 au d2 M2" across months of
      one year, and the short date form on both ends across years. */
  function FormatSingleDateRange(range: DateRange): (r: string)
    ensures r == "" <==>
      range.start == "" || range.end == "" ||
      ParseDate(range.start).None? || ParseDate(range.end).None?
    ensures r != "" ==> "du " <= r
  {
    if range.start == "" || range.end == "" then ""
    else
      match (ParseDate(range.start), ParseDate(range.end))
      case (Some(a), Some(b)) =>
        if a.year == b.year then
          if MonthName(a.month) == MonthName(b.month) then
            "du " + NatToString(a.day) + " au " + NatToString(b.day) + " " + MonthName(a.month)
          else
            "du " + NatToString(a.day) + " " + MonthName(a.month) + " au " +
            NatToString(b.day) + " " + MonthName(b.month)
        else
          "du " + ShortDate(a) + " au " + ShortDate(b)
      case _ => ""
  }

  /** The phrase of the range between two valid dates, stated on the dates
      themselves: the month-name comparison of the source is a comparison of
      months. */
  lemma RangePhraseOfDates(a: Date, b: Date)
    requires ValidDate(a) && ValidDate(b)
    ensures var r := FormatSingleDateRange(DateRange(FormatIso(a), FormatIso(b)));
      && (a.year == b.year && a.month == b.month ==>
            r == "du " + NatToString(a.day) + " au " + NatToString(b.day) + " " + MonthName(a.month))
      && (a.year == b.year && a.month != b.month ==>
            r == "du " + NatToString(a.day) + " " + MonthName(a.month) + " au " +
                 NatToString(b.day) + " " + MonthName(b.month))
      && (a.year != b.year ==> r == "du " + ShortDate(a) + " au " + ShortDate(b))
  {
    ParseFormatIso(a);
    ParseFormatIso(b);
    MonthNameInjective(a.month, b.month);
  }

  /** Joining what a filter keeps gives nothing exactly when the filter
      keeps nothing, provided it only keeps non-empty strings. */
  lemma JoinFilteredEmptyIff(xs: seq<string>, keep: string -> bool, sep: string)
    requires |sep| > 0
    requires forall x :: keep(x) ==> x != ""
    ensures Join(Filter(xs, keep), sep) == "" <==> forall i :: 0 <= i < |xs| ==> !keep(xs[i])
  {
    var kept := Filter(xs, keep);
    JoinEmptyIff(kept, sep);
    if |kept| > 0 {
      assert keep(kept[0]);
      assert kept[0] in xs;
    }
    if exists i :: 0 <= i < |xs| && keep(xs[i]) {
      var i :| 0 <= i < |xs| && keep(xs[i]);
      assert xs[i] in kept;
    }
  }

  /** The date-ranges phrase: the phrases of the ranges that say something,
      in order, joined by ", ". */
  function FormatDateRanges(ranges: seq<DateRange>): (r: string)
    ensures r == "" <==> forall i :: 0 <= i < |ranges| ==> FormatSingleDateRange(ranges[i]) == ""
    ensures r != "" ==> "du " <= r
  {
    if |ranges| == 0 then ""
    else
      var phrases := Map(ranges, FormatSingleDateRange);
      JoinFilteredEmptyIff(phrases, NonEmpty, ", ");
      var kept := Filter(phrases, NonEmpty);
      assert |kept| > 0 ==> kept[0] in phrases && "du " <= kept[0];
      Join(kept, ", ")
  }

  /** One range alone reads as its own phrase. */
  lemma FormatOneDateRange(range: DateRange)
    ensures FormatDateRanges([range]) == FormatSingleDateRange(range)
  {
    var f := FormatSingleDateRange;
    assert Map([range], f) == [f(range)];
    assert Filter([f(range)], NonEmpty) == Filter([], NonEmpty) + (if NonEmpty(f(range)) then [f(range)] else []) by {
      assert [f(range)][1..] == [];
    }
  }

  /** The phrase of `a + b` is the two phrases joined by ", ", or just one
      of them when the other says nothing: each range is rendered on its
      own, in order, and the survivors are joined once. */
  lemma FormatDateRangesAppend(a: seq<DateRange>, b: seq<DateRange>)
    ensures FormatDateRanges(a) == "" ==> FormatDateRanges(a + b) == FormatDateRanges(b)
    ensures FormatDateRanges(b) == "" ==> FormatDateRanges(a + b) == FormatDateRanges(a)
    ensures FormatDateRanges(a) != "" && FormatDateRanges(b) != "" ==>
      FormatDateRanges(a + b) == FormatDateRanges(a) + ", " + FormatDateRanges(b)
  {
    var f := FormatSingleDateRange;
    MapAppend(a, b, f);
    var pa, pb := Map(a, f), Map(b, f);
    FilterAppend(pa, pb, NonEmpty);
    var ka, kb := Filter(pa, NonEmpty), Filter(pb, NonEmpty);
    RangesAreJoinOfKept(a);
    RangesAreJoinOfKept(b);
    RangesAreJoinOfKept(a + b);
    JoinFilteredEmptyIff(pa, NonEmpty, ", ");
    JoinFilteredEmptyIff(pb, NonEmpty, ", ");
    if |ka| == 0 {
      assert ka + kb == kb;
    } else if |kb| == 0 {
      assert ka + kb == ka;
    } else {
      JoinAppend(ka, kb, ", ");
    }
  }

  /** The ranges phrase, including for no range, is the join of the
      non-empty range phrases. */
  lemma RangesAreJoinOfKept(ranges: seq<DateRange>)
    ensures FormatDateRanges(ranges) == Join(Filter(Map(ranges, FormatSingleDateRange), NonEmpty), ", ")
  {
    if |ranges| == 0 {
      assert Map(ranges, FormatSingleDateRange) == [];
    }
  }

  /** A range that says nothing (an end unset or unparseable) can be removed
      without changing the phrase. */
  lemma SilentRangeIgnored(before: seq<DateRange>, range: DateRange, after: seq<DateRange>)
    requires FormatSingleDateRange(range) == ""
    ensures FormatDateRanges(before + [range] + after) == FormatDateRanges(before + after)
  {
    var f := FormatSingleDateRange;
    MapInsert(before, range, after, f);
    MapAppend(before, after, f);
    EmptyPhraseFiltered(Map(before, f), Map(after, f));
  }

  /** An empty phrase between others does not survive the filter. */
  lemma EmptyPhraseFiltered(pb: seq<string>, pa: seq<string>)
    ensures Filter(pb + [""] + pa, NonEmpty) == Filter(pb + pa, NonEmpty)
  {
    FilterAppend(pb + [""], pa, NonEmpty);
    FilterAppend(pb, [""], NonEmpty);
    FilterAppend(pb, pa, NonEmpty);
    assert Filter([""], NonEmpty) == [];
  }
}
