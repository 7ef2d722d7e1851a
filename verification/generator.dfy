/** The text of a whole schedule: each rule rendered as its day part followed
    by its time part, the rules that say nothing dropped, the rest joined by
    ", ". */
module ScheduleGenerator {
  import opened Seqs
  import opened Strings
  import opened ScheduleModel
  import opened Weekdays
  import opened DateText
  import opened TimeText

  /** A text whose first character is not one that `trim` removes. */
  predicate StartsVisibly(s: string) {
    |s| > 0 && !IsJsWhitespace(s[0])
  }

  /** `generateDayPart`: the phrase of the pattern's variant. A non-empty
      phrase always starts with a day name, "Tous", a day number or "du". */
  function DayPart(p: DayPattern, currentYear: nat): (r: string)
    requires WellFormedDays(p)
    ensures p.Weekly? ==> (r == "" <==> forall i :: 0 <= i < 7 ==> !p.days[i])
    ensures p.DailyExcept? ==> (r == "" <==> forall i :: 0 <= i < 7 ==> p.exceptDays[i])
    ensures p.Dates? ==> (r == "" <==> |p.dates| == 0)
    ensures p.DateRanges? ==>
      (r == "" <==> forall i :: 0 <= i < |p.ranges| ==> FormatSingleDateRange(p.ranges[i]) == "")
  {
    match p
    case Weekly(days) => FormatWeekly(days)
    case DailyExcept(exceptDays) => FormatDailyExcept(exceptDays)
    case Dates(dates) => FormatDates(dates, currentYear)
    case DateRanges(ranges) => FormatDateRanges(ranges)
  }

  /** Letters and digits are not removed by `trim`. */
  lemma AlphanumericVisible(c: char)
    requires 'A' <= c <= 'Z' || 'a' <= c <= 'z' || IsDigit(c)
    ensures !IsJsWhitespace(c)
  {
  }

  /** A day part that says something starts with a day name, "Tous", a day
      number or "du", never with a character `trim` would remove. */
  lemma DayPartStartsVisibly(p: DayPattern, currentYear: nat)
    requires WellFormedDays(p)
    ensures DayPart(p, currentYear) == "" || StartsVisibly(DayPart(p, currentYear))
  {
    var r := DayPart(p, currentYear);
    if r != "" {
      match p
      case Weekly(days) =>
        if forall i :: 0 <= i < 7 ==> days[i] {
          assert r == "Tous les jours";
        } else {
          WeeklyPartialInitial(days);
        }
        AlphanumericVisible(r[0]);
      case DailyExcept(exceptDays) =>
        assert r[0] == 'T';
        AlphanumericVisible(r[0]);
      case Dates(dates) =>
        AlphanumericVisible(r[0]);
      case DateRanges(ranges) =>
        assert r[0] == 'd';
        AlphanumericVisible(r[0]);
    }
  }

  /** `generateRuleString`: nothing when the day part is empty, otherwise the
      day part, a space and the time part (which may itself be empty). */
  function RuleString(rule: ScheduleRule, currentYear: nat): (r: string)
    requires WellFormedDays(rule.dayPattern)
    ensures r == "" <==> DayPart(rule.dayPattern, currentYear) == ""
    ensures r != "" ==> DayPart(rule.dayPattern, currentYear) + " " <= r
    ensures r != "" ==> r == DayPart(rule.dayPattern, currentYear) + " " + TimePart(rule.timePattern)
  {
    var day := DayPart(rule.dayPattern, currentYear);
    if day == "" then "" else day + " " + TimePart(rule.timePattern)
  }

  /** The `trim` filter of `generate` drops exactly the rules whose day part
      is empty: a rule with a time part but no day says nothing. */
  lemma RuleStringBlankIff(rule: ScheduleRule, currentYear: nat)
    requires WellFormedDays(rule.dayPattern)
    ensures IsBlank(RuleString(rule, currentYear)) <==> DayPart(rule.dayPattern, currentYear) == ""
    ensures Visible(RuleString(rule, currentYear)) <==> DayPart(rule.dayPattern, currentYear) != ""
  {
    var r := RuleString(rule, currentYear);
    DayPartStartsVisibly(rule.dayPattern, currentYear);
    if r != "" {
      assert r[0] == DayPart(rule.dayPattern, currentYear)[0];
    }
  }

  ghost predicate AllWellFormed(rules: seq<ScheduleRule>) {
    forall i :: 0 <= i < |rules| ==> WellFormedDays(rules[i].dayPattern)
  }

  /** `rules.map(rule => this.generateRuleString(rule))`. */
  function RuleStrings(rules: seq<ScheduleRule>, currentYear: nat): (r: seq<string>)
    requires AllWellFormed(rules)
    ensures |r| == |rules|
    ensures forall i :: 0 <= i < |rules| ==> r[i] == RuleString(rules[i], currentYear)
  {
    if |rules| == 0 then []
    else [RuleString(rules[0], currentYear)] + RuleStrings(rules[1..], currentYear)
  }

  lemma RuleStringsAppend(a: seq<ScheduleRule>, b: seq<ScheduleRule>, currentYear: nat)
    requires AllWellFormed(a) && AllWellFormed(b)
    ensures AllWellFormed(a + b)
    ensures RuleStrings(a + b, currentYear) == RuleStrings(a, currentYear) + RuleStrings(b, currentYear)
  {
    var ab := a + b;
    assert AllWellFormed(ab) by {
      forall i | 0 <= i < |ab|
        ensures WellFormedDays(ab[i].dayPattern)
      {
        if i >= |a| {
          assert ab[i] == b[i - |a|];
        }
      }
    }
    var l, ra, rb := RuleStrings(ab, currentYear), RuleStrings(a, currentYear), RuleStrings(b, currentYear);
    forall i | 0 <= i < |l|
      ensures l[i] == (ra + rb)[i]
    {
      if i < |a| {
        assert ab[i] == a[i];
      } else {
        assert ab[i] == b[i - |a|];
      }
    }
  }

  lemma TextsVisibleIff(rules: seq<ScheduleRule>, currentYear: nat)
    requires AllWellFormed(rules)
    ensures forall i :: 0 <= i < |rules| ==>
      (Visible(RuleStrings(rules, currentYear)[i]) <==> DayPart(rules[i].dayPattern, currentYear) != "")
  {
    forall i | 0 <= i < |rules|
      ensures Visible(RuleStrings(rules, currentYear)[i]) <==> DayPart(rules[i].dayPattern, currentYear) != ""
    {
      RuleStringBlankIff(rules[i], currentYear);
    }
  }

  /** `generate`: nothing for no rule; otherwise the texts of the rules
      that say something, in order, joined by ", ". The result is empty
      exactly when no rule has a day part. */
  function Generate(rules: seq<ScheduleRule>, currentYear: nat): (r: string)
    requires AllWellFormed(rules)
    ensures r == "" <==> forall i :: 0 <= i < |rules| ==> DayPart(rules[i].dayPattern, currentYear) == ""
  {
    if |rules| == 0 then ""
    else
      var texts := RuleStrings(rules, currentYear);
      TextsVisibleIff(rules, currentYear);
      JoinFilteredEmptyIff(texts, Visible, ", ");
      Join(Filter(texts, Visible), ", ")
  }

  /** The texts `generate` keeps for a list of rules. */
  function Kept(rules: seq<ScheduleRule>, currentYear: nat): seq<string>
    requires AllWellFormed(rules)
  {
    Filter(RuleStrings(rules, currentYear), Visible)
  }

  lemma GenerateIsJoinOfKept(rules: seq<ScheduleRule>, currentYear: nat)
    requires AllWellFormed(rules)
    ensures Generate(rules, currentYear) == Join(Kept(rules, currentYear), ", ")
  {
  }

  /** The text of a concatenation of rule lists is the texts of the two
      lists joined by ", ", or just one of them when the other says
      nothing. */
  lemma GenerateAppend(a: seq<ScheduleRule>, b: seq<ScheduleRule>, currentYear: nat)
    requires AllWellFormed(a) && AllWellFormed(b)
    ensures AllWellFormed(a + b)
    ensures Generate(a, currentYear) == "" ==> Generate(a + b, currentYear) == Generate(b, currentYear)
    ensures Generate(b, currentYear) == "" ==> Generate(a + b, currentYear) == Generate(a, currentYear)
    ensures Generate(a, currentYear) != "" && Generate(b, currentYear) != "" ==>
      Generate(a + b, currentYear) == Generate(a, currentYear) + ", " + Generate(b, currentYear)
  {
    RuleStringsAppend(a, b, currentYear);
    FilterAppend(RuleStrings(a, currentYear), RuleStrings(b, currentYear), Visible);
    var ka, kb := Kept(a, currentYear), Kept(b, currentYear);
    assert Kept(a + b, currentYear) == ka + kb;
    GenerateIsJoinOfKept(a, currentYear);
    GenerateIsJoinOfKept(b, currentYear);
    GenerateIsJoinOfKept(a + b, currentYear);
    JoinFilteredEmptyIff(RuleStrings(a, currentYear), Visible, ", ");
    JoinFilteredEmptyIff(RuleStrings(b, currentYear), Visible, ", ");
    if |ka| == 0 {
      assert ka + kb == kb;
    } else if |kb| == 0 {
      assert ka + kb == ka;
    } else {
      JoinAppend(ka, kb, ", ");
    }
  }

  /** One rule alone: its text when it has a day part, nothing otherwise. */
  lemma GenerateSingle(rule: ScheduleRule, currentYear: nat)
    requires WellFormedDays(rule.dayPattern)
    ensures AllWellFormed([rule])
    ensures Generate([rule], currentYear) ==
      if DayPart(rule.dayPattern, currentYear) == "" then "" else RuleString(rule, currentYear)
  {
    RuleStringBlankIff(rule, currentYear);
    var texts := RuleStrings([rule], currentYear);
    assert texts == [RuleString(rule, currentYear)];
    assert Filter(texts, Visible) == Filter([], Visible) + (if Visible(texts[0]) then [texts[0]] else []) by {
      assert texts[1..] == [];
    }
  }

  /** A rule without a day part can be removed from the list without
      changing the text. */
  lemma GenerateDropsSilentRule(before: seq<ScheduleRule>, rule: ScheduleRule, after: seq<ScheduleRule>, currentYear: nat)
    requires AllWellFormed(before) && AllWellFormed(after)
    requires WellFormedDays(rule.dayPattern) && DayPart(rule.dayPattern, currentYear) == ""
    ensures AllWellFormed(before + [rule] + after) && AllWellFormed(before + after)
    ensures Generate(before + [rule] + after, currentYear) == Generate(before + after, currentYear)
  {
    GenerateSingle(rule, currentYear);
    GenerateAppend(before, [rule], currentYear);
    GenerateAppend(before + [rule], after, currentYear);
    GenerateAppend(before, after, currentYear);
  }
}
