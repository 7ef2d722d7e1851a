/** The time part of a rule's text: "H24", the sunrise-to-sunset phrase, or
    the time slots as "du 08H00 au 14H00" joined by " et ". */
module TimeText {
  import opened Wrappers
  import opened Seqs
  import opened Strings
  import opened ScheduleModel

  /** An `HH:mm` string as the editor's time inputs produce it. */
  predicate WellFormedClock(t: string) {
    |t| == 5 && IsDigit(t[0]) && IsDigit(t[1]) && t[2] == ':' && IsDigit(t[3]) && IsDigit(t[4])
  }

  /** `t.replace(':', 'H')`: only the first colon becomes an `H`. */
  function ClockText(t: string): string {
    ReplaceFirst(t, ":", "H")
  }

  /** A single character that occurs first at position `p`. */
  lemma FirstCharOccurrence(s: string, c: char, p: nat)
    requires p < |s| && s[p] == c
    requires forall q :: 0 <= q < p ==> s[q] != c
    ensures FirstOccurrence(s, [c], p)
  {
    forall q | 0 <= q < p
      ensures !OccursAt(s, [c], q)
    {
      assert s[q..q + 1] == [s[q]];
    }
    assert s[p..p + 1] == [c];
  }

  /** On a well-formed time the colon between hours and minutes becomes an
      `H` and nothing else changes, and the inverse replacement gives the
      time back. */
  lemma ClockTextRoundTrip(t: string)
    requires WellFormedClock(t)
    ensures ClockText(t) == t[..2] + "H" + t[3..]
    ensures |ClockText(t)| == 5 && ClockText(t)[2] == 'H'
    ensures ReplaceFirst(ClockText(t), "H", ":") == t
  {
    FirstCharOccurrence(t, ':', 2);
    var h := t[..2] + "H" + t[3..];
    assert h[0] == t[0] && h[1] == t[1] && h[2] == 'H';
    FirstCharOccurrence(h, 'H', 2);
    assert h[..2] + ":" + h[3..] == t;
  }

  /** A time with no colon is shown as is. */
  lemma ClockTextWithoutColon(t: string)
    requires forall i :: 0 <= i < |t| ==> t[i] != ':'
    ensures ClockText(t) == t
  {
    forall q
      ensures !OccursAt(t, ":", q)
    {
      if 0 <= q < |t| {
        assert t[q..q + 1] == [t[q]];
      }
    }
  }

  /** One slot: `du ${start} au ${end}` with the colons replaced. */
  function SlotPhrase(slot: TimeSlot): string {
    "du " + ClockText(slot.start) + " au " + ClockText(slot.end)
  }

  /** `generateTimePart`: nothing only for a time-range pattern without
      slots; otherwise the fixed phrase of the pattern's type or the slots'
      phrases in order. */
  function TimePart(tp: TimePattern): (r: string)
    ensures tp.kind == H24 ==> r == "H24"
    ensures tp.kind == SunriseSunset ==> r == "Lever au coucher du soleil"
    ensures r == "" <==> tp.kind == TimeRange && (tp.slots.None? || tp.slots.value == [])
    ensures tp.kind == TimeRange && tp.slots.Some? && |tp.slots.value| > 0 ==>
      SlotPhrase(tp.slots.value[0]) <= r
    ensures tp.kind == TimeRange && tp.slots.Some? && |tp.slots.value| == 1 ==>
      r == SlotPhrase(tp.slots.value[0])
  {
    match tp.kind
    case H24 => "H24"
    case SunriseSunset => "Lever au coucher du soleil"
    case TimeRange =>
      match tp.slots
      case None => ""
      case Some(slots) =>
        if |slots| == 0 then ""
        else
          var phrases := Map(slots, SlotPhrase);
          assert phrases[0] == SlotPhrase(slots[0]);
          Join(phrases, " et ")
  }

  /** Appending a slot to a non-empty list appends its phrase after " et ". */
  lemma TimePartAppendSlot(slots: seq<TimeSlot>, slot: TimeSlot)
    requires |slots| > 0
    ensures TimePart(TimePattern(TimeRange, Some(slots + [slot]))) ==
      TimePart(TimePattern(TimeRange, Some(slots))) + " et " + SlotPhrase(slot)
  {
    MapAppend(slots, [slot], SlotPhrase);
    JoinAppend(Map(slots, SlotPhrase), Map([slot], SlotPhrase), " et ");
  }
}
