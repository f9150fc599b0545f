/** Slot search (`find_slots`): the open slots of one doctor at one location
    from a start date on, offered either one row at a time (30 minutes) or as
    pairs of back-to-back rows (any other duration), in date and time order
    and at most 50 of them. */
module SlotFinder {
  import opened Schedule
  import opened Text

  /** The cap of `options[:50]`. */
  const MaxOptions: nat := 50

  // ---------------------------------------------------------------------
  // Filtering (app.py:49-50)
  // ---------------------------------------------------------------------

  /** A row survives the filter: same doctor and location, `booked == "No"`,
      and a date string not below the start date. */
  predicate IsAvailable(s: Slot, doctor: string, startDate: string, location: string)
  {
    s.doctor == doctor && s.location == location && s.booked == "No" && LexLe(startDate, s.date)
  }

  /** The rows that survive the filter, in grid order. */
  function Available(schedule: seq<Slot>, doctor: string, startDate: string, location: string): (r: seq<Slot>)
    ensures forall s :: s in r <==> s in schedule && IsAvailable(s, doctor, startDate, location)
    ensures |r| <= |schedule|
  {
    if schedule == [] then []
    else
      var rest := Available(schedule[1..], doctor, startDate, location);
      if IsAvailable(schedule[0], doctor, startDate, location) then [schedule[0]] + rest else rest
  }

  /** The filter keeps every matching row as often as the grid holds it,
      duplicates included, and no other row. */
  lemma {:induction false} AvailableCounts(schedule: seq<Slot>, doctor: string, startDate: string, location: string)
    ensures forall s :: multiset(Available(schedule, doctor, startDate, location))[s]
                        == if IsAvailable(s, doctor, startDate, location) then multiset(schedule)[s] else 0
  {
    if schedule != [] {
      AvailableCounts(schedule[1..], doctor, startDate, location);
      assert schedule == [schedule[0]] + schedule[1..];
    }
  }

  /** The filter keeps grid order: filtering two stretches of the grid one
      after the other gives the two results one after the other. */
  lemma {:induction false} AvailableConcat(a: seq<Slot>, b: seq<Slot>, doctor: string, startDate: string, location: string)
    ensures Available(a + b, doctor, startDate, location)
            == Available(a, doctor, startDate, location) + Available(b, doctor, startDate, location)
  {
    if a != [] {
      var ab := a + b;
      assert ab[0] == a[0] && ab[1..] == a[1..] + b;
      AvailableConcat(a[1..], b, doctor, startDate, location);
    } else {
      assert a + b == b;
    }
  }

  // ---------------------------------------------------------------------
  // Sorting by (date, slot_start) (app.py:51)
  // ---------------------------------------------------------------------

  /** The order of `sort_values(["date", "slot_start"])`: by date, then by
      start time, each compared as a string. */
  predicate KeyLe(a: Slot, b: Slot)
  {
    if a.date == b.date then LexLe(a.slotStart, b.slotStart) else LexLe(a.date, b.date)
  }

  lemma KeyLeTotal(a: Slot, b: Slot)
    ensures KeyLe(a, b) || KeyLe(b, a)
  {
    LexLeTotal(a.slotStart, b.slotStart);
    LexLeTotal(a.date, b.date);
  }

  lemma KeyLeTransitive(a: Slot, b: Slot, c: Slot)
    requires KeyLe(a, b) && KeyLe(b, c)
    ensures KeyLe(a, c)
  {
    if a.date == b.date && b.date == c.date {
      LexLeTransitive(a.slotStart, b.slotStart, c.slotStart);
    } else if a.date != b.date && b.date != c.date {
      LexLeTransitive(a.date, b.date, c.date);
      if a.date == c.date {
        LexLeAntisymmetric(a.date, b.date);
      }
    }
  }

  /** Rows of one date come no later than rows of a later date. */
  lemma KeyLeDates(a: Slot, b: Slot)
    requires KeyLe(a, b)
    ensures LexLe(a.date, b.date)
  {
    LexLeRefl(a.date);
  }

  predicate Sorted(s: seq<Slot>)
  {
    forall i, j :: 0 <= i < j < |s| ==> KeyLe(s[i], s[j])
  }

  /** Insert `x` before the first row it does not follow. Rows with equal
      keys keep their relative order, as pandas' multi-column sort does. */
  function Insert(x: Slot, s: seq<Slot>): (r: seq<Slot>)
    ensures multiset(r) == multiset(s) + multiset{x}
  {
    if s == [] || KeyLe(x, s[0]) then [x] + s
    else assert s == [s[0]] + s[1..]; [s[0]] + Insert(x, s[1..])
  }

  /** `df.sort_values(["date", "slot_start"])` as a stable insertion sort. */
  function SortByDateStart(s: seq<Slot>): (r: seq<Slot>)
    ensures multiset(r) == multiset(s)
  {
    if s == [] then [] else assert s == [s[0]] + s[1..]; Insert(s[0], SortByDateStart(s[1..]))
  }

  lemma {:induction false} InsertSorted(x: Slot, s: seq<Slot>)
    requires Sorted(s)
    ensures Sorted(Insert(x, s))
  {
    var r := Insert(x, s);
    if s == [] {
    } else if KeyLe(x, s[0]) {
      forall j | 0 < j < |r|
        ensures KeyLe(x, r[j])
      {
        if j > 1 {
          KeyLeTransitive(x, s[0], s[j - 1]);
        }
      }
    } else {
      KeyLeTotal(x, s[0]);
      InsertSorted(x, s[1..]);
      var t := Insert(x, s[1..]);
      assert r == [s[0]] + t;
      forall j | 0 <= j < |t|
        ensures KeyLe(s[0], t[j])
      {
        assert t[j] in multiset(t);
        assert t[j] == x || t[j] in s[1..];
      }
    }
  }

  /** The rows of one (date, start time) key, in the order given. */
  function WithKey(s: seq<Slot>, date: string, start: string): (r: seq<Slot>)
    ensures forall k :: 0 <= k < |r| ==> r[k].date == date && r[k].slotStart == start
  {
    if s == [] then []
    else
      var rest := WithKey(s[1..], date, start);
      if s[0].date == date && s[0].slotStart == start then [s[0]] + rest else rest
  }

  /** Insertion puts a row before every row with its own key. */
  lemma {:induction false} InsertWithKey(x: Slot, s: seq<Slot>, date: string, start: string)
    ensures WithKey(Insert(x, s), date, start)
            == (if x.date == date && x.slotStart == start then [x] else []) + WithKey(s, date, start)
  {
    if s != [] && !KeyLe(x, s[0]) {
      LexLeRefl(x.slotStart);
      InsertWithKey(x, s[1..], date, start);
    }
  }

  /** The sort is stable: rows with equal date and start time keep their grid order. */
  lemma {:induction false} SortKeepsTiesInOrder(s: seq<Slot>, date: string, start: string)
    ensures WithKey(SortByDateStart(s), date, start) == WithKey(s, date, start)
  {
    if s != [] {
      SortKeepsTiesInOrder(s[1..], date, start);
      InsertWithKey(s[0], SortByDateStart(s[1..]), date, start);
    }
  }

  lemma {:induction false} SortSorted(s: seq<Slot>)
    ensures Sorted(SortByDateStart(s))
  {
    if s != [] {
      SortSorted(s[1..]);
      InsertSorted(s[0], SortByDateStart(s[1..]));
    }
  }

  // ---------------------------------------------------------------------
  // Grouping by date (app.py:54)
  // ---------------------------------------------------------------------

  /** The rows of all groups, in order. */
  function Flatten(gs: seq<seq<Slot>>): seq<Slot>
  {
    if gs == [] then [] else Flatten(gs[..|gs| - 1]) + gs[|gs| - 1]
  }

  /** A non-empty run of rows of a single date. */
  predicate OneDate(g: seq<Slot>)
  {
    g != [] && forall k :: 0 <= k < |g| ==> g[k].date == g[0].date
  }

  /** Every group is a non-empty run of one date. */
  predicate WellGrouped(gs: seq<seq<Slot>>)
  {
    forall i :: 0 <= i < |gs| ==> OneDate(gs[i])
  }

  /** One more row read by the grouping: it joins the last group when it has
      that group's date, and opens a new group otherwise. */
  function AddRow(gs: seq<seq<Slot>>, x: Slot): (r: seq<seq<Slot>>)
    requires WellGrouped(gs)
    ensures WellGrouped(r) && r != []
  {
    if gs != [] && gs[|gs| - 1][0].date == x.date then gs[..|gs| - 1] + [gs[|gs| - 1] + [x]]
    else gs + [[x]]
  }

  /** `df.groupby("date")` on rows already sorted by date: the maximal runs
      of rows sharing a date, each run in row order. */
  function GroupByDate(s: seq<Slot>): (gs: seq<seq<Slot>>)
    ensures WellGrouped(gs)
    ensures s == [] <==> gs == []
  {
    if s == [] then [] else AddRow(GroupByDate(s[..|s| - 1]), s[|s| - 1])
  }

  /** The row just read ends the last group. */
  lemma AddRowLast(gs: seq<seq<Slot>>, x: Slot)
    requires WellGrouped(gs)
    ensures AddRow(gs, x)[|AddRow(gs, x)| - 1] != []
    ensures AddRow(gs, x)[|AddRow(gs, x)| - 1][|AddRow(gs, x)[|AddRow(gs, x)| - 1]| - 1] == x
  {
  }

  /** The last row read is the last row of the last group. */
  lemma LastRowEndsLastGroup(s: seq<Slot>, gs: seq<seq<Slot>>)
    requires s != [] && gs == GroupByDate(s)
    ensures gs != [] && gs[|gs| - 1] != [] && gs[|gs| - 1][|gs[|gs| - 1]| - 1] == s[|s| - 1]
  {
    AddRowLast(GroupByDate(s[..|s| - 1]), s[|s| - 1]);
  }

  /** Reading one more row appends it to the rows of the groups. */
  lemma FlattenAddRow(gs: seq<seq<Slot>>, x: Slot)
    requires WellGrouped(gs)
    ensures Flatten(AddRow(gs, x)) == Flatten(gs) + [x]
  {
    var r := AddRow(gs, x);
    if gs != [] && gs[|gs| - 1][0].date == x.date {
      var p, g := gs[..|gs| - 1], gs[|gs| - 1];
      assert r[..|r| - 1] == p;
      assert Flatten(gs) == Flatten(p) + g;
    } else {
      assert r[..|r| - 1] == gs;
    }
  }

  /** Read in order, the groups give back the rows. */
  lemma {:induction false} GroupsCoverRows(s: seq<Slot>)
    ensures Flatten(GroupByDate(s)) == s
  {
    if s != [] {
      var t := s[..|s| - 1];
      GroupsCoverRows(t);
      FlattenAddRow(GroupByDate(t), s[|s| - 1]);
      assert s == t + [s[|s| - 1]];
    }
  }

  /** Group heads with pairwise distinct dates. */
  predicate DistinctHeads(gs: seq<seq<Slot>>)
    requires WellGrouped(gs)
  {
    forall i, j :: 0 <= i < j < |gs| ==> gs[i][0].date != gs[j][0].date
  }

  /** Every group head's date is at most `d`. */
  predicate HeadsUpTo(gs: seq<seq<Slot>>, d: string)
    requires WellGrouped(gs)
  {
    forall i :: 0 <= i < |gs| ==> LexLe(gs[i][0].date, d)
  }

  /** Reading a row whose date is not below the last row read keeps the group
      heads distinct and not above the new row's date. */
  lemma {:induction false} AddRowKeepsHeadsDistinct(gs: seq<seq<Slot>>, x: Slot, last: Slot)
    requires WellGrouped(gs) && gs != [] && last == gs[|gs| - 1][|gs[|gs| - 1]| - 1]
    requires DistinctHeads(gs) && HeadsUpTo(gs, last.date) && LexLe(last.date, x.date)
    ensures DistinctHeads(AddRow(gs, x)) && HeadsUpTo(AddRow(gs, x), x.date)
  {
    var r := AddRow(gs, x);
    var g := gs[|gs| - 1];
    assert OneDate(g);
    assert last.date == g[0].date;
    forall i | 0 <= i < |gs|
      ensures LexLe(gs[i][0].date, x.date)
    {
      LexLeTransitive(gs[i][0].date, last.date, x.date);
    }
    LexLeRefl(x.date);
    if g[0].date == x.date {
      assert r == gs[..|gs| - 1] + [g + [x]];
      assert forall i :: 0 <= i < |r| ==> r[i][0] == gs[i][0];
    } else {
      assert r == gs + [[x]];
      forall i | 0 <= i < |gs|
        ensures gs[i][0].date != x.date
      {
        if gs[i][0].date == x.date {
          LexLeAntisymmetric(last.date, x.date);
        }
      }
    }
  }

  /** On rows sorted by date the runs have pairwise distinct dates, so they
      are exactly pandas' groups: one per date, in ascending date order. */
  lemma {:induction false} GroupsHaveDistinctDates(s: seq<Slot>)
    requires Sorted(s)
    ensures DistinctHeads(GroupByDate(s))
    ensures s != [] ==> HeadsUpTo(GroupByDate(s), s[|s| - 1].date)
  {
    if s != [] {
      var t := s[..|s| - 1];
      var x := s[|s| - 1];
      assert Sorted(t);
      GroupsHaveDistinctDates(t);
      if t == [] {
        LexLeRefl(x.date);
        assert GroupByDate(s) == [[x]];
      } else {
        LastRowEndsLastGroup(t, GroupByDate(t));
        KeyLeDates(s[|s| - 2], x);
        AddRowKeepsHeadsDistinct(GroupByDate(t), x, t[|t| - 1]);
      }
    }
  }

  // ---------------------------------------------------------------------
  // Building the options (app.py:53-64)
  // ---------------------------------------------------------------------

  /** The options of a 30-minute search within one group: every row. */
  function Singles(g: seq<Slot>, key: string): (r: seq<Opening>)
  {
    if g == [] then []
    else Singles(g[..|g| - 1], key) + [Opening(key, g[|g| - 1].slotStart, g[|g| - 1].slotEnd)]
  }

  /** The options of a longer search within one group: every pair of
      neighbouring rows where the first ends when the second starts. */
  function Pairs(g: seq<Slot>, key: string): (r: seq<Opening>)
  {
    if |g| < 2 then []
    else
      var a, b := g[|g| - 2], g[|g| - 1];
      Pairs(g[..|g| - 1], key) + (if a.slotEnd == b.slotStart then [Opening(key, a.slotStart, b.slotEnd)] else [])
  }

  function GroupOpenings(g: seq<Slot>, key: string, duration: int): seq<Opening>
  {
    if duration == 30 then Singles(g, key) else Pairs(g, key)
  }

  /** The options of all groups in turn, each labelled with its group's date
      (groups are never empty; an empty one would add nothing). */
  function AllOpenings(gs: seq<seq<Slot>>, duration: int): seq<Opening>
  {
    if gs == [] then []
    else
      var g := gs[|gs| - 1];
      AllOpenings(gs[..|gs| - 1], duration) + (if g == [] then [] else GroupOpenings(g, g[0].date, duration))
  }

  /** The filtered rows, sorted. */
  function SortedAvailable(schedule: seq<Slot>, doctor: string, startDate: string, location: string): seq<Slot>
  {
    SortByDateStart(Available(schedule, doctor, startDate, location))
  }

  /** The whole option list of `find_slots` before the cap. */
  function Openings(schedule: seq<Slot>, doctor: string, startDate: string, location: string, duration: int): seq<Opening>
  {
    AllOpenings(GroupByDate(SortedAvailable(schedule, doctor, startDate, location)), duration)
  }

  function Cap(n: nat): nat
  {
    if n < MaxOptions then n else MaxOptions
  }

  // ---------------------------------------------------------------------
  // The option list, described row by row
  // ---------------------------------------------------------------------

  /** One option per row, in row order: the 30-minute search. */
  function RowOpenings(s: seq<Slot>): (r: seq<Opening>)
    ensures |r| == |s|
    ensures forall k :: 0 <= k < |s| ==> r[k] == Opening(s[k].date, s[k].slotStart, s[k].slotEnd)
  {
    seq(|s|, k requires 0 <= k < |s| => Opening(s[k].date, s[k].slotStart, s[k].slotEnd))
  }

  /** Two neighbouring rows that make up one longer option. */
  predicate Contiguous(a: Slot, b: Slot)
  {
    a.date == b.date && a.slotEnd == b.slotStart
  }

  /** One option per pair of neighbouring rows of one date where the first
      ends when the second starts: the longer search. */
  function AdjacentPairs(s: seq<Slot>): seq<Opening>
  {
    if |s| < 2 then []
    else
      var a, b := s[|s| - 2], s[|s| - 1];
      AdjacentPairs(s[..|s| - 1]) + (if Contiguous(a, b) then [Opening(a.date, a.slotStart, b.slotEnd)] else [])
  }

  lemma {:induction false} SinglesAreRows(g: seq<Slot>, key: string)
    requires forall k :: 0 <= k < |g| ==> g[k].date == key
    ensures Singles(g, key) == RowOpenings(g)
  {
    if g != [] {
      SinglesAreRows(g[..|g| - 1], key);
    }
  }

  lemma {:induction false} PairsAreAdjacent(g: seq<Slot>, key: string)
    requires forall k :: 0 <= k < |g| ==> g[k].date == key
    ensures Pairs(g, key) == AdjacentPairs(g)
  {
    if |g| >= 2 {
      PairsAreAdjacent(g[..|g| - 1], key);
    }
  }

  /** One more group appends its own options. */
  lemma AllOpeningsSnoc(gs: seq<seq<Slot>>, g: seq<Slot>, duration: int)
    requires g != []
    ensures AllOpenings(gs + [g], duration) == AllOpenings(gs, duration) + GroupOpenings(g, g[0].date, duration)
  {
    assert (gs + [g])[..|gs|] == gs;
  }

  /** One more row in a group adds its own 30-minute option. */
  lemma SinglesSnoc(g: seq<Slot>, x: Slot, key: string)
    ensures Singles(g + [x], key) == Singles(g, key) + [Opening(key, x.slotStart, x.slotEnd)]
  {
    assert (g + [x])[..|g|] == g;
  }

  /** One more row in a group adds the option it makes with the group's last
      row, if that row ends where it starts. */
  lemma PairsSnoc(g: seq<Slot>, x: Slot, key: string)
    requires g != []
    ensures Pairs(g + [x], key)
            == Pairs(g, key) + (if g[|g| - 1].slotEnd == x.slotStart then [Opening(key, g[|g| - 1].slotStart, x.slotEnd)] else [])
  {
    var h := g + [x];
    assert h[..|h| - 1] == g;
    assert h[|h| - 2] == g[|g| - 1] && h[|h| - 1] == x;
  }

  /** Appending a row to the last group changes only that group's options. */
  lemma JoinLastGroup(gs: seq<seq<Slot>>, x: Slot, duration: int)
    requires WellGrouped(gs) && gs != [] && gs[|gs| - 1][0].date == x.date
    ensures AllOpenings(gs, duration)
            == AllOpenings(gs[..|gs| - 1], duration) + GroupOpenings(gs[|gs| - 1], x.date, duration)
    ensures AllOpenings(AddRow(gs, x), duration)
            == AllOpenings(gs[..|gs| - 1], duration) + GroupOpenings(gs[|gs| - 1] + [x], x.date, duration)
  {
    var p, g := gs[..|gs| - 1], gs[|gs| - 1];
    assert OneDate(g);
    assert (g + [x])[0] == g[0];
    assert AddRow(gs, x) == p + [g + [x]];
    AllOpeningsSnoc(p, g + [x], duration);
  }

  /** One more row adds exactly its own option to the 30-minute search. */
  lemma SinglesStep(gs: seq<seq<Slot>>, x: Slot)
    requires WellGrouped(gs)
    ensures AllOpenings(AddRow(gs, x), 30) == AllOpenings(gs, 30) + [Opening(x.date, x.slotStart, x.slotEnd)]
  {
    if gs != [] && gs[|gs| - 1][0].date == x.date {
      JoinLastGroup(gs, x, 30);
      SinglesSnoc(gs[|gs| - 1], x, x.date);
    } else {
      assert AddRow(gs, x) == gs + [[x]];
      AllOpeningsSnoc(gs, [x], 30);
      SinglesSnoc([], x, x.date);
      assert [] + [x] == [x];
    }
  }

  /** One more row adds exactly the option it makes with the row read before
      it, `a`, when `a` has its date and ends where it starts, to the longer
      search. */
  lemma PairsStep(gs: seq<seq<Slot>>, x: Slot, duration: int, a: Slot)
    requires duration != 30
    requires WellGrouped(gs) && gs != [] && a == gs[|gs| - 1][|gs[|gs| - 1]| - 1]
    ensures AllOpenings(AddRow(gs, x), duration)
            == AllOpenings(gs, duration) + (if Contiguous(a, x) then [Opening(a.date, a.slotStart, x.slotEnd)] else [])
  {
    var g := gs[|gs| - 1];
    assert OneDate(g);
    assert a.date == g[0].date;
    if g[0].date == x.date {
      JoinLastGroup(gs, x, duration);
      PairsSnoc(g, x, x.date);
    } else {
      assert AddRow(gs, x) == gs + [[x]];
      AllOpeningsSnoc(gs, [x], duration);
      assert !Contiguous(a, x);
    }
  }

  /** The last row's option comes last. */
  lemma RowOpeningsSnoc(s: seq<Slot>)
    requires s != []
    ensures RowOpenings(s)
            == RowOpenings(s[..|s| - 1]) + [Opening(s[|s| - 1].date, s[|s| - 1].slotStart, s[|s| - 1].slotEnd)]
  {
  }

  /** The 30-minute search gives one option per filtered row, in row order. */
  lemma {:induction false} GroupsGiveRowOpenings(s: seq<Slot>)
    ensures AllOpenings(GroupByDate(s), 30) == RowOpenings(s)
  {
    if s != [] {
      var t := s[..|s| - 1];
      var x := s[|s| - 1];
      GroupsGiveRowOpenings(t);
      SinglesStep(GroupByDate(t), x);
      RowOpeningsSnoc(s);
    }
  }

  /** A single row makes no pair. */
  lemma OneRowNoPairs(x: Slot, duration: int)
    requires duration != 30
    ensures AllOpenings(GroupByDate([x]), duration) == []
  {
    var none: seq<seq<Slot>> := [];
    assert [x][..0] == [];
    assert GroupByDate([x]) == none + [[x]];
    AllOpeningsSnoc(none, [x], duration);
  }

  /** The longer search gives the options of neighbouring rows of one date. */
  lemma {:induction false} GroupsGiveAdjacentPairs(s: seq<Slot>, duration: int)
    requires duration != 30
    ensures AllOpenings(GroupByDate(s), duration) == AdjacentPairs(s)
  {
    if |s| == 1 {
      assert s == [s[0]];
      OneRowNoPairs(s[0], duration);
    } else if s != [] {
      var t := s[..|s| - 1];
      GroupsGiveAdjacentPairs(t, duration);
      LastRowEndsLastGroup(t, GroupByDate(t));
      PairsStep(GroupByDate(t), s[|s| - 1], duration, t[|t| - 1]);
    }
  }

  /** An option of the longer search is exactly a pair of neighbouring rows of
      one date, the first ending when the second starts. */
  lemma {:induction false} AdjacentPairsExactly(s: seq<Slot>, o: Opening)
    ensures o in AdjacentPairs(s) <==>
            exists i :: 0 <= i < |s| - 1 && Contiguous(s[i], s[i + 1])
                        && o == Opening(s[i].date, s[i].slotStart, s[i + 1].slotEnd)
  {
    if |s| >= 2 {
      var t := s[..|s| - 1];
      AdjacentPairsExactly(t, o);
      assert forall i :: 0 <= i < |t| ==> t[i] == s[i];
    }
  }

  /** Options are ordered by date, then by start time. */
  predicate OpeningLe(a: Opening, b: Opening)
  {
    if a.date == b.date then LexLe(a.start, b.start) else LexLe(a.date, b.date)
  }

  predicate OpeningsSorted(os: seq<Opening>)
  {
    forall i, j :: 0 <= i < j < |os| ==> OpeningLe(os[i], os[j])
  }

  /** An option that no earlier option follows may be appended to ordered options. */
  lemma AppendLastOpening(ps: seq<Opening>, p: Opening)
    requires OpeningsSorted(ps)
    requires forall k :: 0 <= k < |ps| ==> OpeningLe(ps[k], p)
    ensures OpeningsSorted(ps + [p])
  {
    var r := ps + [p];
    forall i, j | 0 <= i < j < |r|
      ensures OpeningLe(r[i], r[j])
    {
      assert r[i] == ps[i];
    }
  }

  /** On sorted rows, every pair option before the last row starts no later
      than the last-but-one row. */
  lemma EarlierPairComesFirst(s: seq<Slot>, o: Opening)
    requires Sorted(s) && |s| >= 2
    requires o in AdjacentPairs(s[..|s| - 1])
    ensures OpeningLe(o, Opening(s[|s| - 2].date, s[|s| - 2].slotStart, s[|s| - 1].slotEnd))
  {
    var t := s[..|s| - 1];
    AdjacentPairsExactly(t, o);
    var i :| 0 <= i < |t| - 1 && Contiguous(t[i], t[i + 1])
             && o == Opening(t[i].date, t[i].slotStart, t[i + 1].slotEnd);
    assert t[i] == s[i];
    assert KeyLe(s[i], s[|s| - 2]);
  }

  lemma {:induction false} AdjacentPairsSorted(s: seq<Slot>)
    requires Sorted(s)
    ensures OpeningsSorted(AdjacentPairs(s))
  {
    if |s| >= 2 {
      var t := s[..|s| - 1];
      assert Sorted(t);
      AdjacentPairsSorted(t);
      var a, b := s[|s| - 2], s[|s| - 1];
      var ps := AdjacentPairs(t);
      if Contiguous(a, b) {
        var p := Opening(a.date, a.slotStart, b.slotEnd);
        forall k | 0 <= k < |ps|
          ensures OpeningLe(ps[k], p)
        {
          EarlierPairComesFirst(s, ps[k]);
        }
        AppendLastOpening(ps, p);
      }
    }
  }

  // ---------------------------------------------------------------------
  // What the search promises
  // ---------------------------------------------------------------------

  /** An option is backed by available rows of the grid: one row for the
      30-minute search, two back-to-back rows of one date otherwise. */
  predicate Offered(schedule: seq<Slot>, doctor: string, startDate: string, location: string,
                    duration: int, o: Opening)
  {
    if duration == 30 then
      exists a :: a in schedule && IsAvailable(a, doctor, startDate, location)
                  && o == Opening(a.date, a.slotStart, a.slotEnd)
    else
      exists a, b :: a in schedule && b in schedule
                     && IsAvailable(a, doctor, startDate, location) && IsAvailable(b, doctor, startDate, location)
                     && Contiguous(a, b) && o == Opening(a.date, a.slotStart, b.slotEnd)
  }

  lemma SortedRowIsAvailable(schedule: seq<Slot>, doctor: string, startDate: string, location: string, k: int)
    requires 0 <= k < |SortedAvailable(schedule, doctor, startDate, location)|
    ensures var a := SortedAvailable(schedule, doctor, startDate, location)[k];
            a in schedule && IsAvailable(a, doctor, startDate, location)
  {
    var df := SortedAvailable(schedule, doctor, startDate, location);
    assert df[k] in multiset(df);
  }

  /** The 30-minute search offers each filtered row once, in sorted order. */
  lemma OneOpeningPerRow(schedule: seq<Slot>, doctor: string, startDate: string, location: string)
    ensures |Openings(schedule, doctor, startDate, location, 30)| == |SortedAvailable(schedule, doctor, startDate, location)|
    ensures forall k :: 0 <= k < |SortedAvailable(schedule, doctor, startDate, location)| ==>
              var a := SortedAvailable(schedule, doctor, startDate, location)[k];
              Openings(schedule, doctor, startDate, location, 30)[k] == Opening(a.date, a.slotStart, a.slotEnd)
  {
    GroupsGiveRowOpenings(SortedAvailable(schedule, doctor, startDate, location));
  }

  /** The longer search offers exactly the pairs of neighbouring sorted rows
      of one date where the first ends when the second starts. */
  lemma OpeningsArePairs(schedule: seq<Slot>, doctor: string, startDate: string, location: string,
                         duration: int, o: Opening)
    requires duration != 30
    ensures var df := SortedAvailable(schedule, doctor, startDate, location);
            o in Openings(schedule, doctor, startDate, location, duration) <==>
            exists i :: 0 <= i < |df| - 1 && Contiguous(df[i], df[i + 1])
                        && o == Opening(df[i].date, df[i].slotStart, df[i + 1].slotEnd)
  {
    var df := SortedAvailable(schedule, doctor, startDate, location);
    GroupsGiveAdjacentPairs(df, duration);
    AdjacentPairsExactly(df, o);
  }

  /** Every option is backed by available rows of the grid. */
  lemma OpeningsAreOffered(schedule: seq<Slot>, doctor: string, startDate: string, location: string,
                           duration: int, o: Opening)
    requires o in Openings(schedule, doctor, startDate, location, duration)
    ensures Offered(schedule, doctor, startDate, location, duration, o)
  {
    var df := SortedAvailable(schedule, doctor, startDate, location);
    if duration == 30 {
      OneOpeningPerRow(schedule, doctor, startDate, location);
      var os := Openings(schedule, doctor, startDate, location, 30);
      var k :| 0 <= k < |os| && os[k] == o;
      SortedRowIsAvailable(schedule, doctor, startDate, location, k);
    } else {
      OpeningsArePairs(schedule, doctor, startDate, location, duration, o);
      var i :| 0 <= i < |df| - 1 && Contiguous(df[i], df[i + 1])
               && o == Opening(df[i].date, df[i].slotStart, df[i + 1].slotEnd);
      SortedRowIsAvailable(schedule, doctor, startDate, location, i);
      SortedRowIsAvailable(schedule, doctor, startDate, location, i + 1);
    }
  }

  /** The options come in (date, start time) order. */
  lemma OpeningsInOrder(schedule: seq<Slot>, doctor: string, startDate: string, location: string, duration: int)
    ensures OpeningsSorted(Openings(schedule, doctor, startDate, location, duration))
  {
    var df := SortedAvailable(schedule, doctor, startDate, location);
    SortSorted(Available(schedule, doctor, startDate, location));
    if duration == 30 {
      GroupsGiveRowOpenings(df);
    } else {
      GroupsGiveAdjacentPairs(df, duration);
      AdjacentPairsSorted(df);
    }
  }

  /** Any leading part of the option list, the first 50 in particular, is
      ordered and backed by available rows. */
  lemma PrefixKeepsPromises(schedule: seq<Slot>, doctor: string, startDate: string, location: string,
                            duration: int, n: nat)
    requires n <= |Openings(schedule, doctor, startDate, location, duration)|
    ensures OpeningsSorted(Openings(schedule, doctor, startDate, location, duration)[..n])
    ensures forall o :: o in Openings(schedule, doctor, startDate, location, duration)[..n] ==>
              Offered(schedule, doctor, startDate, location, duration, o)
  {
    var all := Openings(schedule, doctor, startDate, location, duration);
    OpeningsInOrder(schedule, doctor, startDate, location, duration);
    forall o | o in all[..n]
      ensures Offered(schedule, doctor, startDate, location, duration, o)
    {
      OpeningsAreOffered(schedule, doctor, startDate, location, duration, o);
    }
  }

  // ---------------------------------------------------------------------
  // find_slots (app.py:46-65)
  // ---------------------------------------------------------------------

  /** The body of the loop over date groups (app.py:55-64): append the
      options of one group, labelled with its date, to `options`. */
  method AppendGroupOptions(options: seq<Opening>, group: seq<Slot>, dateVal: string, duration: int)
    returns (extended: seq<Opening>)
    requires group != []
    ensures extended == options + GroupOpenings(group, dateVal, duration)
  {
    extended := options;
    if duration == 30 {
      var idx := 0;
      while idx < |group|
        invariant 0 <= idx <= |group|
        invariant extended == options + Singles(group[..idx], dateVal)
      {
        extended := extended + [Opening(dateVal, group[idx].slotStart, group[idx].slotEnd)];
        assert group[..idx + 1][..idx] == group[..idx];
        idx := idx + 1;
      }
    } else {
      var i := 0;
      while i < |group| - 1
        invariant 0 <= i <= |group| - 1
        invariant extended == options + Pairs(group[..i + 1], dateVal)
      {
        var a := group[i];
        var b := group[i + 1];
        if a.slotEnd == b.slotStart {
          extended := extended + [Opening(dateVal, a.slotStart, b.slotEnd)];
        }
        assert group[..i + 2][..i + 1] == group[..i + 1];
        i := i + 1;
      }
    }
    assert group[..|group|] == group;
  }

  /** The loop over the date groups (app.py:54-64): the options of every
      group in turn. */
  method CollectOptions(groups: seq<seq<Slot>>, duration: int) returns (options: seq<Opening>)
    requires WellGrouped(groups)
    ensures options == AllOpenings(groups, duration)
  {
    options := [];
    var gi := 0;
    while gi < |groups|
      invariant 0 <= gi <= |groups|
      invariant options == AllOpenings(groups[..gi], duration)
    {
      var group := groups[gi];
      assert OneDate(group);
      options := AppendGroupOptions(options, group, group[0].date, duration);
      assert groups[..gi + 1] == groups[..gi] + [group];
      AllOpeningsSnoc(groups[..gi], group, duration);
      gi := gi + 1;
    }
    assert groups[..|groups|] == groups;
  }

  /** `find_slots(schedule, doctor, start_date, location, duration_min)`,
      with the start date already formatted as `YYYY-MM-DD`. */
  method FindSlots(schedule: seq<Slot>, doctor: string, startDate: string, location: string, duration: int)
    returns (options: seq<Opening>)
    ensures var all := Openings(schedule, doctor, startDate, location, duration);
            options == all[..Cap(|all|)]
    ensures |options| <= MaxOptions
    ensures OpeningsSorted(options)
    ensures forall o :: o in options ==> Offered(schedule, doctor, startDate, location, duration, o)
  {
    var df := SortByDateStart(Available(schedule, doctor, startDate, location));
    var groups := GroupByDate(df);
    options := CollectOptions(groups, duration);
    options := options[..Cap(|options|)];
    PrefixKeepsPromises(schedule, doctor, startDate, location, duration, |options|);
  }
}
