/** The two weekday day-pattern renderers of the schedule generator: the
    weekly selection, phrased as runs of consecutive days, and the
    every-day-except variant. */
module Weekdays {
  import opened Seqs
  import opened Strings
  import opened ScheduleModel

  const DayNames: seq<string> :=
    ["Dimanche", "Lundi", "Mardi", "Mercredi", "Jeudi", "Vendredi", "Samedi"]

  /** The full French weekday name of index `i` (0 is Sunday). */
  function DayName(i: Weekday): (name: string)
    ensures |name| > 0
  {
    DayNames[i]
  }

  // ---------------------------------------------------------------------------
  // active indices

  ghost predicate StrictlyIncreasing(s: seq<Weekday>) {
    forall i, j :: 0 <= i < j < |s| ==> s[i] < s[j]
  }

  /** The indices below `n` whose flag is set, in ascending order. */
  function ActivePrefix(flags: seq<bool>, n: nat): (r: seq<Weekday>)
    requires n <= |flags| == 7
    ensures StrictlyIncreasing(r)
    ensures forall x :: x in r ==> x < n && flags[x]
    ensures forall i :: 0 <= i < n && flags[i] ==> (i as Weekday) in r
    ensures |r| <= n
    ensures |r| == n <==> forall i :: 0 <= i < n ==> flags[i]
    ensures |r| == 0 <==> forall i :: 0 <= i < n ==> !flags[i]
  {
    if n == 0 then []
    else
      var before := ActivePrefix(flags, n - 1);
      if flags[n - 1] then
        var r := before + [(n - 1) as Weekday];
        assert forall i, j :: 0 <= i < j < |r| ==> r[i] < r[j] by {
          forall i, j | 0 <= i < j < |r|
            ensures r[i] < r[j]
          {
            if j == |r| - 1 {
              assert r[i] in before;
            }
          }
        }
        r
      else before
  }

  /** `days.map((on, i) => on ? i : -1).filter(i => i !== -1)`: the weekday
      indices whose flag is set, ascending. */
  function ActiveDays(flags: seq<bool>): (r: seq<Weekday>)
    requires |flags| == 7
    ensures StrictlyIncreasing(r)
    ensures forall i: Weekday :: i in r <==> flags[i]
    ensures |r| == 7 <==> forall i :: 0 <= i < 7 ==> flags[i]
    ensures |r| == 0 <==> forall i :: 0 <= i < 7 ==> !flags[i]
  {
    ActivePrefix(flags, 7)
  }

  // ---------------------------------------------------------------------------
  // runs of consecutive days

  /** Each index is followed by its successor. */
  ghost predicate Consecutive(g: seq<Weekday>) {
    forall i :: 0 <= i < |g| - 1 ==> g[i + 1] as int == g[i] as int + 1
  }

  /** `gs` cuts `s` into non-empty runs of consecutive indices, in order, and
      no run could be extended by the next one (no run ends at `d` while the
      next starts at `d + 1`). */
  ghost predicate IsRunPartition(gs: seq<seq<Weekday>>, s: seq<Weekday>) {
    && (forall k :: 0 <= k < |gs| ==> |gs[k]| > 0 && Consecutive(gs[k]))
    && Flatten(gs) == s
    && (forall k :: 0 <= k < |gs| - 1 ==> gs[k][|gs[k]| - 1] as int + 1 != gs[k + 1][0] as int)
  }

  /** The grouping loop of the weekly renderer: each index joins the current
      run when it is the successor of the run's last index, and starts a new
      run otherwise. Sunday does not follow Saturday. */
  function Runs(s: seq<Weekday>): (r: seq<seq<Weekday>>)
    requires |s| > 0
    ensures |r| > 0 && |r[0]| > 0 && r[0][0] == s[0]
    ensures IsRunPartition(r, s)
    decreases |s|
  {
    if |s| == 1 then
      assert Flatten([[s[0]]][1..]) == [];
      [[s[0]]]
    else
      var rest := Runs(s[1..]);
      if rest[0][0] as int == s[0] as int + 1 then
        ExtendFirstRun(s, rest);
        [[s[0]] + rest[0]] + rest[1..]
      else
        StartNewRun(s, rest);
        [[s[0]]] + rest
  }

  /** Putting the head in front of the first run when that run starts with
      its successor. */
  lemma ExtendFirstRun(s: seq<Weekday>, rest: seq<seq<Weekday>>)
    requires |s| > 1 && |rest| > 0 && |rest[0]| > 0
    requires IsRunPartition(rest, s[1..])
    requires rest[0][0] as int == s[0] as int + 1
    ensures IsRunPartition([[s[0]] + rest[0]] + rest[1..], s)
  {
    var r := [[s[0]] + rest[0]] + rest[1..];
    assert r[1..] == rest[1..];
    FlattenCons(rest);
    FlattenCons(r);
    assert s == [s[0]] + s[1..];
    assert Consecutive(r[0]);
    if |r| > 1 {
      assert r[0][|r[0]| - 1] == rest[0][|rest[0]| - 1];
    }
  }

  /** Starting a new run with the head when the first run does not continue
      it. */
  lemma StartNewRun(s: seq<Weekday>, rest: seq<seq<Weekday>>)
    requires |s| > 1 && |rest| > 0 && |rest[0]| > 0
    requires IsRunPartition(rest, s[1..])
    requires rest[0][0] as int != s[0] as int + 1
    ensures IsRunPartition([[s[0]]] + rest, s)
  {
    var r := [[s[0]]] + rest;
    assert r[1..] == rest;
    FlattenCons(r);
    assert s == [s[0]] + s[1..];
  }

  lemma FlattenCons(gs: seq<seq<Weekday>>)
    requires |gs| > 0
    ensures Flatten(gs) == gs[0] + Flatten(gs[1..])
  {
  }

  lemma {:induction false} FlattenNonEmpty(gs: seq<seq<Weekday>>)
    requires forall k :: 0 <= k < |gs| ==> |gs[k]| > 0
    ensures |Flatten(gs)| >= |gs|
    decreases |gs|
  {
    if |gs| > 0 {
      FlattenNonEmpty(gs[1..]);
    }
  }

  /** The tail of a run partition partitions the rest of the sequence. */
  lemma RunPartitionTail(gs: seq<seq<Weekday>>, s: seq<Weekday>)
    requires IsRunPartition(gs, s) && |gs| > 0
    ensures |gs[0]| <= |s| && gs[0] == s[..|gs[0]|]
    ensures IsRunPartition(gs[1..], s[|gs[0]|..])
  {
    FlattenCons(gs);
  }

  /** There is only one way to cut a sequence into maximal runs: the
      weekly grouping is determined by the active days alone. */
  lemma {:induction false} RunPartitionUnique(a: seq<seq<Weekday>>, b: seq<seq<Weekday>>, s: seq<Weekday>)
    requires IsRunPartition(a, s) && IsRunPartition(b, s)
    ensures a == b
    decreases |s|
  {
    FlattenNonEmpty(a);
    FlattenNonEmpty(b);
    if |s| == 0 {
      return;
    }
    assert |a| > 0 && |b| > 0;
    RunPartitionTail(a, s);
    RunPartitionTail(b, s);
    var la, lb := |a[0]|, |b[0]|;
    if la < lb {
      assert false;
    } else if lb < la {
      assert false;
    }
    assert a[0] == b[0];
    RunPartitionUnique(a[1..], b[1..], s[la..]);
    assert a == [a[0]] + a[1..] && b == [b[0]] + b[1..];
  }

  // ---------------------------------------------------------------------------
  // rendering

  /** A run longer than two days reads "First au Last"; a run of one or two
      days lists its names. */
  function RunPhrase(g: seq<Weekday>): (r: string)
    ensures |g| > 2 ==> r == DayName(g[0]) + " au " + DayName(g[|g| - 1])
    ensures |g| <= 2 ==> r == Join(Map(g, DayName), ", ")
    ensures |g| > 0 ==> |r| > 0
  {
    if |g| > 2 then DayName(g[0]) + " au " + DayName(g[|g| - 1])
    else Join(Map(g, DayName), ", ")
  }

  /** The weekly day phrase: nothing without an active day, "Tous les jours"
      with all seven, otherwise the run phrases joined by ", ". */
  function FormatWeekly(days: seq<bool>): (r: string)
    requires |days| == 7
    ensures r == "" <==> forall i :: 0 <= i < 7 ==> !days[i]
    ensures (forall i :: 0 <= i < 7 ==> days[i]) ==> r == "Tous les jours"
  {
    var active := ActiveDays(days);
    if |active| == 0 then ""
    else if |active| == 7 then "Tous les jours"
    else
      Join(Map(Runs(active), RunPhrase), ", ")
  }

  /** For a week that is neither empty nor full, the weekly phrase is the
      ", "-join of the phrases of ANY cut of the active days into maximal
      runs of consecutive days. */
  lemma WeeklyPhraseOfMaximalRuns(days: seq<bool>, gs: seq<seq<Weekday>>)
    requires |days| == 7
    requires exists i :: 0 <= i < 7 && days[i]
    requires exists i :: 0 <= i < 7 && !days[i]
    requires IsRunPartition(gs, ActiveDays(days))
    ensures FormatWeekly(days) == Join(Map(gs, RunPhrase), ", ")
  {
    RunPartitionUnique(gs, Runs(ActiveDays(days)), ActiveDays(days));
  }

  /** The every-day-except phrase: "Tous les jours" with nothing excluded,
      nothing when all seven days are excluded, otherwise "Tous les jours
      sauf " and the excluded names in weekday order. */
  function FormatDailyExcept(exceptDays: seq<bool>): (r: string)
    requires |exceptDays| == 7
    ensures r == "Tous les jours" <==> forall i :: 0 <= i < 7 ==> !exceptDays[i]
    ensures r == "" <==> forall i :: 0 <= i < 7 ==> exceptDays[i]
    ensures (exists i :: 0 <= i < 7 && exceptDays[i]) && (exists i :: 0 <= i < 7 && !exceptDays[i]) ==>
              r == "Tous les jours sauf " + Join(Map(ActiveDays(exceptDays), DayName), ", ")
    ensures r != "" ==> "Tous les jours" <= r
  {
    var excluded := Map(ActiveDays(exceptDays), DayName);
    if |excluded| == 0 then "Tous les jours"
    else if |excluded| == 7 then ""
    else
      var r := "Tous les jours sauf " + Join(excluded, ", ");
      assert r != "Tous les jours" by {
        assert |r| > |"Tous les jours"|;
      }
      r
  }

  /** Excluding a set of weekdays and selecting its complement agree on the
      two ends: nothing is said when no day remains, and "Tous les jours"
      when every day remains. */
  lemma DailyExceptMatchesComplement(exceptDays: seq<bool>, kept: seq<bool>)
    requires |exceptDays| == 7 && |kept| == 7
    requires forall i :: 0 <= i < 7 ==> kept[i] == !exceptDays[i]
    ensures FormatDailyExcept(exceptDays) == "" <==> FormatWeekly(kept) == ""
    ensures FormatDailyExcept(exceptDays) == "Tous les jours" <==> FormatWeekly(kept) == "Tous les jours"
  {
    if (exists i :: 0 <= i < 7 && kept[i]) && (exists i :: 0 <= i < 7 && !kept[i]) {
      WeeklyPartialInitial(kept);
      var i :| 0 <= i < 7 && !kept[i];
      assert exceptDays[i];
      assert FormatDailyExcept(exceptDays) != "Tous les jours";
    }
  }

  /** A weekly phrase for a week that is neither empty nor full starts with
      a day name, never with the whole-week phrase's "T". */
  lemma WeeklyPartialInitial(days: seq<bool>)
    requires |days| == 7
    requires exists i :: 0 <= i < 7 && days[i]
    requires exists i :: 0 <= i < 7 && !days[i]
    ensures |FormatWeekly(days)| > 0 && FormatWeekly(days)[0] != 'T'
    ensures 'A' <= FormatWeekly(days)[0] <= 'Z'
  {
    var rs := Runs(ActiveDays(days));
    var phrases := Map(rs, RunPhrase);
    assert phrases[0] == RunPhrase(rs[0]);
    RunPhraseInitial(rs[0]);
    DayNameInitial(rs[0][0]);
  }

  lemma RunPhraseInitial(g: seq<Weekday>)
    requires |g| > 0
    ensures |RunPhrase(g)| > 0 && RunPhrase(g)[0] == DayName(g[0])[0]
  {
    if |g| <= 2 {
      assert Map(g, DayName)[0] == DayName(g[0]);
    }
  }

  lemma DayNameInitial(i: Weekday)
    ensures DayName(i)[0] != 'T' && 'A' <= DayName(i)[0] <= 'Z'
  {
  }
}
