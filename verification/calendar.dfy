/** Calendar dates as the renderer sees them. The TypeScript code turns a
    stored `YYYY-MM-DD` string into a JavaScript `Date` at local midnight and
    reads back its year, month and day of month; here a date is that triple,
    with a parser for the storage format, the French month-name table that
    replaces `toLocaleDateString('fr-FR', { month: 'long' })`, the
    `dd/mm/yyyy` short form of `toLocaleDateString('fr-FR')`, and the
    chronological order that sorting by `getTime()` follows. */
module Calendar {
  import opened Wrappers
  import opened Strings

  type Month = m: nat | 1 <= m <= 12 witness 1

  datatype Date = Date(year: nat, month: Month, day: nat)

  predicate IsLeapYear(y: nat) {
    (y % 4 == 0 && y % 100 != 0) || y % 400 == 0
  }

  function DaysInMonth(y: nat, m: Month): (n: nat)
    ensures 28 <= n <= 31
  {
    if m == 2 then (if IsLeapYear(y) then 29 else 28)
    else if m == 4 || m == 6 || m == 9 || m == 11 then 30
    else 31
  }

  /** A date that exists in the (proleptic Gregorian) calendar and whose
      year has at most four digits, as in the storage format. */
  predicate ValidDate(d: Date) {
    d.year <= 9999 && 1 <= d.day <= DaysInMonth(d.year, d.month)
  }

  /** The storage format `YYYY-MM-DD`. */
  function FormatIso(d: Date): (s: string)
    ensures |s| == 10 && s[4] == '-' && s[7] == '-'
  {
    FixedDigits(d.year, 4) + "-" + FixedDigits(d.month, 2) + "-" + FixedDigits(d.day, 2)
  }

  /** Reads a `YYYY-MM-DD` string. Anything else, including a day past the
      end of its month, is unparseable. A successful parse is canonical: the
      date formats back to exactly the input. */
  function ParseDate(s: string): (r: Option<Date>)
    ensures r.Some? ==> ValidDate(r.value) && FormatIso(r.value) == s
  {
    if |s| == 10 && s[4] == '-' && s[7] == '-' &&
       AllDigits(s[..4]) && AllDigits(s[5..7]) && AllDigits(s[8..])
    then
      var y := DigitsValue(s[..4]);
      var m := DigitsValue(s[5..7]);
      var d := DigitsValue(s[8..]);
      if 1 <= m <= 12 && 1 <= d <= DaysInMonth(y, m) then
        assert Pow10(4) == 10000;
        FixedDigitsOfValue(s[..4]);
        FixedDigitsOfValue(s[5..7]);
        FixedDigitsOfValue(s[8..]);
        assert s == s[..4] + "-" + s[5..7] + "-" + s[8..];
        Some(Date(y, m, d))
      else None
    else None
  }

  /** Every valid date is read back from its storage form. */
  lemma ParseFormatIso(d: Date)
    requires ValidDate(d)
    ensures ParseDate(FormatIso(d)) == Some(d)
  {
    var s := FormatIso(d);
    assert s[..4] == FixedDigits(d.year, 4);
    assert s[5..7] == FixedDigits(d.month, 2);
    assert s[8..] == FixedDigits(d.day, 2);
    assert Pow10(4) == 10000 && Pow10(2) == 100;
    FixedDigitsValue(d.year, 4);
    FixedDigitsValue(d.month, 2);
    FixedDigitsValue(d.day, 2);
  }

  /** ParseDate succeeds exactly on the storage forms of valid dates. */
  lemma ParseDateSucceedsIff(s: string)
    ensures ParseDate(s).Some? <==> exists d :: ValidDate(d) && FormatIso(d) == s
  {
    if exists d :: ValidDate(d) && FormatIso(d) == s {
      var d :| ValidDate(d) && FormatIso(d) == s;
      ParseFormatIso(d);
    }
  }

  // ---------------------------------------------------------------------------
  // names

  const MonthNames: seq<string> :=
    ["janvier", "février", "mars", "avril", "mai", "juin", "juillet",
     "août", "septembre", "octobre", "novembre", "décembre"]

  /** The French long month name, lower case, as `fr-FR` writes it. */
  function MonthName(m: Month): string {
    MonthNames[m - 1]
  }

  /** Month names are pairwise distinct, so comparing names compares months. */
  lemma MonthNameInjective(a: Month, b: Month)
    ensures MonthName(a) == MonthName(b) <==> a == b
  {
    if a != b {
      assert MonthName(a)[..2] != MonthName(b)[..2] || MonthName(a) != MonthName(b);
    }
  }

  /** Month names hold neither spaces nor digits. */
  lemma MonthNameLetters(m: Month)
    ensures |MonthName(m)| > 0
    ensures forall i :: 0 <= i < |MonthName(m)| ==> MonthName(m)[i] != ' ' && !IsDigit(MonthName(m)[i])
  {
  }

  /** `toLocaleDateString('fr-FR')`: two-digit day and month, then the year. */
  function ShortDate(d: Date): (s: string)
    requires ValidDate(d)
    ensures |s| >= 7 && s[2] == '/' && s[5] == '/'
    ensures s[..2] == FixedDigits(d.day, 2) && s[3..5] == FixedDigits(d.month, 2)
    ensures s[6..] == NatToString(d.year)
    ensures DigitsValue(s[..2]) == d.day && DigitsValue(s[3..5]) == d.month && DigitsValue(s[6..]) == d.year
  {
    assert Pow10(2) == 100;
    FixedDigitsValue(d.day, 2);
    FixedDigitsValue(d.month, 2);
    NatToStringValue(d.year);
    FixedDigits(d.day, 2) + "/" + FixedDigits(d.month, 2) + "/" + NatToString(d.year)
  }

  // ---------------------------------------------------------------------------
  // chronological order

  /** `a` is not later than `b`: the order of `getTime()` at local midnight. */
  predicate DateLe(a: Date, b: Date) {
    a.year < b.year ||
    (a.year == b.year && (a.month < b.month || (a.month == b.month && a.day <= b.day)))
  }

  ghost predicate SortedDates(s: seq<Date>) {
    forall i, j :: 0 <= i < j < |s| ==> DateLe(s[i], s[j])
  }

  function InsertDate(x: Date, s: seq<Date>): (r: seq<Date>)
    requires SortedDates(s)
    ensures SortedDates(r)
    ensures multiset(r) == multiset(s) + multiset{x}
  {
    if |s| == 0 then [x]
    else if DateLe(x, s[0]) then [x] + s
    else
      assert s == [s[0]] + s[1..];
      var tail := InsertDate(x, s[1..]);
      assert forall y :: y in multiset(tail) ==> DateLe(s[0], y) by {
        forall y | y in multiset(tail)
          ensures DateLe(s[0], y)
        {
          if y != x {
            assert y in multiset(s[1..]);
            var j :| 0 <= j < |s[1..]| && s[1..][j] == y;
            assert s[j + 1] == y;
          }
        }
      }
      var r := [s[0]] + tail;
      assert forall j :: 0 < j < |r| ==> r[j] in multiset(tail) by {
        forall j | 0 < j < |r|
          ensures r[j] in multiset(tail)
        {
          assert r[j] == tail[j - 1];
        }
      }
      r
  }

  /** `dates.sort((a, b) => a.getTime() - b.getTime())`: the dates in
      chronological order, each kept as often as it occurs. */
  function SortDates(s: seq<Date>): (r: seq<Date>)
    ensures SortedDates(r)
    ensures multiset(r) == multiset(s)
  {
    if |s| == 0 then []
    else
      assert s == [s[0]] + s[1..];
      InsertDate(s[0], SortDates(s[1..]))
  }
}
