/** The slot labels of the booking screen: an option `(d, s, e)` is shown as
    `"{d} | {s}-{e}"` (app.py:191) and the chosen label is taken apart again
    with `split(" | ")` and `split("-")` (app.py:196). */
module SlotLabel {
  import opened Schedule
  import opened Text

  const FieldSep: string := " | "
  const TimeSep: string := "-"

  /** The label shown for an option. */
  function FormatLabel(o: Opening): (shown: string)
    ensures |shown| == |o.date| + |o.start| + |o.end| + 4
    ensures shown[..|o.date|] == o.date && shown[|shown| - |o.end|..] == o.end
  {
    o.date + FieldSep + o.start + TimeSep + o.end
  }

  /** The option read back from a label: the first field before `" | "`, and
      the first two pieces of the second field split at `"-"`. None stands for
      the IndexError Python raises when a split yields too few pieces. */
  function ParseLabel(shown: string): (r: Option<Opening>)
    ensures r.Some? ==> r.value.date == Split(shown, FieldSep)[0]
    ensures r.None? <==> |Split(shown, FieldSep)| < 2 || |Split(Split(shown, FieldSep)[1], TimeSep)| < 2
  {
    var parts := Split(shown, FieldSep);
    if |parts| < 2 then None
    else
      var times := Split(parts[1], TimeSep);
      if |times| < 2 then None else Some(Opening(parts[0], times[0], times[1]))
  }

  /** The fields of an option that survive the round trip: no `'|'` in any of
      them, and no `'-'` in either time. */
  predicate Printable(o: Opening)
  {
    '|' !in o.date && '|' !in o.start && '|' !in o.end && '-' !in o.start && '-' !in o.end
  }

  /** A string whose character at `k + at` differs from the separator's
      character at `at` has no occurrence of the separator at `k`. */
  lemma NoOccurrenceAt(s: string, sep: string, at: nat, k: nat)
    requires at < |sep| && k + at < |s| && s[k + at] != sep[at]
    ensures !OccursAt(s, sep, k)
  {
  }

  /** A date without `'|'` is the first field of `date + " | " + rest`. */
  lemma {:induction false} DateIsFirstField(d: string, rest: string)
    requires '|' !in d
    ensures Split(d + FieldSep + rest, FieldSep) == [d] + Split(rest, FieldSep)
  {
    var shown := d + FieldSep + rest;
    forall k | 0 <= k < |d|
      ensures !OccursAt(shown, FieldSep, k)
    {
      if k + 1 < |d| {
        assert shown[k + 1] == d[k + 1];
      } else {
        assert shown[k + 1] == ' ';
      }
      NoOccurrenceAt(shown, FieldSep, 1, k);
    }
    SplitAtFirst(d, FieldSep, rest, []);
    assert [] + d == d;
  }

  /** A string without `'|'` is a single field. */
  lemma {:induction false} BarFreeIsOneField(x: string)
    requires '|' !in x
    ensures Split(x, FieldSep) == [x]
  {
    forall k | 0 <= k < |x|
      ensures !OccursAt(x, FieldSep, k)
    {
      if k + 1 < |x| {
        NoOccurrenceAt(x, FieldSep, 1, k);
      }
    }
    SplitNone(x, FieldSep, []);
    assert [] + x == x;
  }

  /** Times without `'-'` come back from `s + "-" + e` split at `"-"`. */
  lemma {:induction false} TimesSplit(s: string, e: string)
    requires '-' !in s && '-' !in e
    ensures Split(s + TimeSep + e, TimeSep) == [s, e]
  {
    var times := s + TimeSep + e;
    forall k | 0 <= k < |s|
      ensures !OccursAt(times, TimeSep, k)
    {
      assert times[k] == s[k];
      NoOccurrenceAt(times, TimeSep, 0, k);
    }
    SplitAtFirst(s, TimeSep, e, []);
    forall k | 0 <= k < |e|
      ensures !OccursAt(e, TimeSep, k)
    {
      NoOccurrenceAt(e, TimeSep, 0, k);
    }
    SplitNone(e, TimeSep, []);
    assert [] + s == s && [] + e == e;
  }

  /** Reading back the label of a printable option gives the option. */
  lemma {:induction false} LabelRoundTrip(o: Opening)
    requires Printable(o)
    ensures ParseLabel(FormatLabel(o)) == Some(o)
  {
    var times := o.start + TimeSep + o.end;
    assert FormatLabel(o) == o.date + FieldSep + times;
    DateIsFirstField(o.date, times);
    assert '|' !in times by {
      forall i | 0 <= i < |times|
        ensures times[i] != '|'
      {
        if i < |o.start| {
          assert times[i] == o.start[i];
        } else if i > |o.start| {
          assert times[i] == o.end[i - |o.start| - 1];
        }
      }
    }
    BarFreeIsOneField(times);
    TimesSplit(o.start, o.end);
  }

  /** A `'|'` at the end of the date breaks the round trip: the label of
      `("a |", "09:00", "09:30")` reads back with date `"a"`. */
  lemma BarInDateBreaksRoundTrip()
    ensures ParseLabel(FormatLabel(Opening("a |", "09:00", "09:30"))) != Some(Opening("a |", "09:00", "09:30"))
  {
    var shown := FormatLabel(Opening("a |", "09:00", "09:30"));
    assert shown == "a | | 09:00-09:30";
    assert shown[..3] != FieldSep;
    assert shown[1..][..3] == FieldSep;
    assert Split(shown, FieldSep)[0] == "a";
  }
}
