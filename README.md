# Appointment scheduling engine, modelled in Dafny

This project models the scheduling engine of `app.py`, a clinic front desk that classifies a caller as a new or returning patient, offers free appointment slots of one doctor at one location, and books the chosen slot in the doctor's slot grid. The Streamlit screens, the spreadsheet and CSV files and the notification stubs around the engine are not modelled.

Every cell of the patient roster and of the slot grid is a string, as the files hold them. The grid is a sequence of 30-minute rows (`Schedule.Slot`). A row is free when its `booked` cell is `"No"` and taken when it is `"Yes"`.

- `schedule.dfy` (module `Schedule`): the roster and slot rows, the `(date, start, end)` option, and the "first row satisfying a mask" lookup that pandas' `iloc[0]` and `index[mask].tolist()[0]` perform.
- `text.dfy` (module `Text`): the Python string operations the engine relies on.
  - `strip()`, with Python's white-space set.
  - `lower()`.
  - The `<=` order on strings, proved a total order.
  - `split(sep)`, with lemmas describing how it cuts at a separator.
- `classifier.dfy` (module `Classifier`): `classify_patient` and `required_duration`.
- `slot_finder.dfy` (module `SlotFinder`): `find_slots`.
  - The filter, the sort and the grouping by date are functions.
  - The nested loops that build the option list are a method with loop invariants. The method is proved equal to the first 50 options of a specification function.
  - Lemmas describe that function row by row: one option per free row for 30 minutes, one option per back-to-back pair of sorted rows otherwise, in `(date, start)` order, every option backed by free rows of the grid.
- `booking.dfy` (module `Booking`): `book_slot`.
  - It is a method over an array copy of the grid that writes the located rows in place.
  - The method is proved equal to the specification function `Book`.
  - Lemmas state what booking promises: the outcome of each path, all-or-nothing refusal, no row ever unbooked, and only free located rows changed, each keeping its slot.
- `slot_label.dfy` (module `SlotLabel`): the `"{d} | {s}-{e}"` label of an option and the way "Confirm Booking" takes it apart. It includes the round trip and an input that breaks it.
- `workflow.dfy` (module `Workflow`): the booking screen's use of the engine, from the duration and the option list to the label read back and the booking. It proves that any option offered on a grid with unique, printable slots books successfully and takes exactly the rows it occupies. It also works through the example of two back-to-back rows of Dr. Rao.

Behaviour of the code that the model keeps as written:
- `find_slots` offers only rows whose `booked` cell is `"No"`, while `book_slot` refuses only rows whose cell is `"Yes"`. A row with any other value is never offered but can be booked.
- The new-patient path of `book_slot` looks up the first row starting at `start` and the first row ending at `end` independently. It never checks that the two rows are back to back, and when both lookups find the same row it books that one row. `Workflow.OfferedOpeningIsBooked` shows that on a grid where every doctor, location and date has at most one row per start time and per end time, the rows it books are exactly the two rows that made up the offered option.
- Python compares the `date >= start_date` filter and the `(date, slot_start)` sort key as strings, so the model compares them with `Text.LexLe`, not as calendar dates.

## Model

| member | source | states |
|---|---|---|
| Schedule.FirstIndex | app.py:38-39 | the result is the index of the first element satisfying the mask, and None exactly when no element satisfies it |
| Text.StripLeft | app.py:32 | the result is a suffix of the input that does not start with white space, and everything removed was white space |
| Text.StripRight | app.py:32 | the result is a prefix of the input that does not end with white space, and everything removed was white space |
| Text.StripFixed | app.py:32 | a string with no white space at either end is left unchanged by strip |
| Text.Lower | app.py:32-36 | the result has the input's length and maps every character through the ASCII lower-case mapping |
| Text.LowerConcat | app.py:36 | lower-casing distributes over concatenation |
| Text.LexLeRefl | app.py:50 | every string is <= itself |
| Text.LexLeTotal | app.py:50-51 | any two strings are comparable |
| Text.LexLeAntisymmetric | app.py:50-51 | two strings each <= the other are equal |
| Text.LexLeTransitive | app.py:50-51 | the string order is transitive |
| Text.LexLeAt | app.py:50-51 | a string is <= another that agrees with it up to a position where it has the smaller character |
| Text.SplitAtFirst | app.py:196 | with no earlier occurrence of the separator, splitting `x + sep + rest` gives `x` followed by the fields of `rest` |
| Text.SplitNone | app.py:196 | a string with no occurrence of the separator splits into itself alone |
| Classifier.ClassifyPatient | app.py:29-41 | no record exactly when no roster row has the date of birth and the lower-cased `first last` equal to the stripped, lower-cased name, and then the patient is not returning; otherwise the record is the first such row, and the returning flag is that row's `returning_patient == "Yes"` |
| Classifier.RequiredDuration | app.py:43-44 | 30 minutes exactly for a returning patient and 60 exactly for any other |
| Classifier.DurationOfPatient | app.py:29-44 | a patient gets 30 minutes exactly when the first matching roster row is flagged returning; every other patient, including one with no roster row, gets 60 |
| Classifier.RosterEntryIsFound | app.py:32-40 | typing a roster row's own first name, last name and date of birth finds a row, and the row itself (with its flag) when no earlier row has the same name and date of birth |
| Classifier.JaneDoeIsReturning | app.py:29-44 | the roster row Jane Doe, 1990-01-01, returning, classifies as returning with that row and gets 30 minutes |
| SlotFinder.Available | app.py:49-50 | a row survives the filter exactly when it is in the grid with the requested doctor and location, `booked == "No"` and a date not below the start date |
| SlotFinder.AvailableCounts | app.py:49-50 | the filter keeps each matching grid row as many times as the grid holds it, duplicates included, and no row that does not match |
| SlotFinder.AvailableConcat | app.py:49-50 | the filter keeps grid order: filtering two stretches of the grid one after the other gives the two results one after the other |
| SlotFinder.KeyLeTotal | app.py:51 | any two rows are comparable by (date, start time) |
| SlotFinder.KeyLeTransitive | app.py:51 | the (date, start time) order is transitive |
| SlotFinder.KeyLeDates | app.py:51 | rows in (date, start time) order are in date order |
| SlotFinder.Insert | app.py:51 | inserting a row adds exactly that row to the multiset of rows |
| SlotFinder.SortByDateStart | app.py:51 | the sort is a permutation of its input |
| SlotFinder.InsertSorted | app.py:51 | inserting into sorted rows keeps them sorted |
| SlotFinder.SortSorted | app.py:51 | the sort's result is ordered by (date, start time) |
| SlotFinder.InsertWithKey | app.py:51 | inserting a row puts it before every row with its own (date, start time) key and leaves the order of those rows as it was |
| SlotFinder.SortKeepsTiesInOrder | app.py:51 | the sort is stable: the rows of any one (date, start time) key come out in their grid order |
| SlotFinder.GroupByDate | app.py:54 | every group is non-empty and holds a single date, and there are no groups exactly when there are no rows |
| SlotFinder.AddRow | app.py:54 | reading one more row keeps every group non-empty and of a single date |
| SlotFinder.AddRowLast | app.py:54 | the row just read is the last row of the last group |
| SlotFinder.FlattenAddRow | app.py:54 | reading one more row appends exactly that row to the rows the groups hold |
| SlotFinder.LastRowEndsLastGroup | app.py:54 | the last row read is the last row of the last group |
| SlotFinder.GroupsCoverRows | app.py:54 | the groups, read in order, give back exactly the rows |
| SlotFinder.AddRowKeepsHeadsDistinct | app.py:51-54 | a row whose date is not below the last row's keeps the group dates pairwise distinct and none above the new row's date |
| SlotFinder.GroupsHaveDistinctDates | app.py:51-54 | on sorted rows the groups have pairwise distinct dates, none above the last row's date, so they are pandas' one group per date |
| SlotFinder.RowOpenings | app.py:56-58 | one option per row, holding that row's date, start and end |
| SlotFinder.SinglesAreRows | app.py:56-58 | within a group of one date the 30-minute options are exactly one per row, in row order |
| SlotFinder.PairsAreAdjacent | app.py:59-64 | within a group of one date the longer options are exactly those of neighbouring back-to-back rows |
| SlotFinder.AllOpeningsSnoc | app.py:54-64 | one more group appends its own options after those of the groups before it |
| SlotFinder.SinglesSnoc | app.py:56-58 | one more row in a group adds exactly its own 30-minute option at the end |
| SlotFinder.PairsSnoc | app.py:59-64 | one more row in a group adds the option it makes with the previous row when that row ends where it starts, and nothing otherwise |
| SlotFinder.JoinLastGroup | app.py:54-64 | a row that joins the last group replaces that group's options and leaves the earlier groups' options in place |
| SlotFinder.SinglesStep | app.py:54-58 | one more sorted row adds exactly its own option to the 30-minute search |
| SlotFinder.PairsStep | app.py:54-64 | one more sorted row adds exactly the option it makes with the row before it, when that row has the same date and ends where it starts |
| SlotFinder.RowOpeningsSnoc | app.py:56-58 | one more row adds exactly its own option to the one-per-row list |
| SlotFinder.GroupsGiveRowOpenings | app.py:53-58 | the 30-minute search gives one option per filtered row, in row order |
| SlotFinder.OneRowNoPairs | app.py:59-64 | a single row offers no longer option |
| SlotFinder.GroupsGiveAdjacentPairs | app.py:53-64 | the longer search gives the options of neighbouring back-to-back rows of one date, in row order |
| SlotFinder.AdjacentPairsExactly | app.py:59-64 | an option of the longer search is exactly a pair of neighbouring rows of one date where the first ends when the second starts (both directions) |
| SlotFinder.AppendLastOpening | app.py:51-64 | an option no earlier option follows keeps ordered options ordered when appended |
| SlotFinder.EarlierPairComesFirst | app.py:51-64 | on sorted rows every pair option before the last row comes no later than the pair the last two rows make |
| SlotFinder.AdjacentPairsSorted | app.py:51-64 | on sorted rows the pair options are in (date, start) order |
| SlotFinder.SortedRowIsAvailable | app.py:49-51 | every sorted row is a free grid row of the requested doctor, location and dates |
| SlotFinder.OneOpeningPerRow | app.py:56-58 | the 30-minute search offers exactly one option per filtered row, the k-th option being the k-th sorted row's date, start and end |
| SlotFinder.OpeningsArePairs | app.py:59-64 | an option of the longer search is exactly `(d, a.start, b.end)` for neighbouring sorted filtered rows a, b of date d with `a.end == b.start` (both directions) |
| SlotFinder.OpeningsAreOffered | app.py:49-64 | every option is backed by free grid rows of the requested doctor, location and dates: one row for 30 minutes, two back-to-back rows of one date otherwise |
| SlotFinder.OpeningsInOrder | app.py:51-64 | the options come in (date, start time) order |
| SlotFinder.PrefixKeepsPromises | app.py:65 | every leading part of the option list is ordered and backed by free rows |
| SlotFinder.AppendGroupOptions | app.py:55-64 | the loop body appends exactly the options of one date group to the list built so far |
| SlotFinder.CollectOptions | app.py:54-64 | the loop over the date groups collects exactly the options of all groups, in group order |
| SlotFinder.FindSlots | app.py:46-65 | the result is exactly the first 50 options of the whole list, never more than 50, in (date, start) order, each backed by free grid rows of the requested doctor, location and dates |
| Booking.FirstSelected | app.py:75-84 | the result is the first row selected by the mask, and None exactly when no row is selected |
| Booking.Targets | app.py:71-84 | every located row index is a row of the grid |
| Booking.AnyRowBooked | app.py:87-90 | the check reports a conflict exactly when one of the located rows says "Yes" |
| Booking.MarkRows | app.py:91-95 | the grid keeps its length; located rows are marked for the request and every other row is unchanged |
| Booking.BookLocated | app.py:87-96 | once the rows are located, booking refuses with the grid unchanged if any of them says "Yes" and marks them all otherwise |
| Booking.MarkInPlace | app.py:91-95 | the array afterwards is the old grid with the located rows marked |
| Booking.BookTwoRows | app.py:71-96 | the new-patient path computes exactly the outcome `Book` specifies |
| Booking.BookOneRow | app.py:97-110 | the returning-patient path computes exactly the outcome `Book` specifies |
| Booking.BookSlot | app.py:67-110 | the outcome and the new grid are exactly those `Book` specifies for the request |
| Booking.ReturningPatientBooking | app.py:97-110 | the 30-minute path succeeds exactly when a row with the date, doctor, location, start and end exists and the first one is not "Yes"; it then marks only that row; otherwise the grid is unchanged |
| Booking.NewPatientBooking | app.py:69-96 | the new-patient path succeeds exactly when both the first row with the start and the first row with the end exist and neither is "Yes"; it then marks exactly those rows; otherwise neither row changes |
| Booking.PairBooked | app.py:87-90 | two located rows conflict exactly when the first or the second says "Yes" |
| Booking.MarkPair | app.py:91-95 | marking two located rows marks the first and then the second and changes nothing else |
| Booking.BookingOnlyMarksFreeRows | app.py:67-110 | booking keeps the number of rows, never touches a row that says "Yes", and changes a row only by marking a free row on success |
| Booking.BookingKeepsSlots | app.py:67-110 | every row keeps its doctor, location, date, start and end, and a changed row now says "Yes" |
| SlotLabel.FormatLabel | app.py:191 | the label begins with the date and ends with the end time, and its length is that of the date, start and end times plus four, the length of the two separators |
| SlotLabel.ParseLabel | app.py:196 | the read-back date is the label's first field, and reading fails exactly when one of the two splits has too few pieces |
| SlotLabel.NoOccurrenceAt | app.py:196 | one differing character rules out an occurrence of the separator |
| SlotLabel.DateIsFirstField | app.py:196 | a date without a vertical bar is the first field of its label |
| SlotLabel.BarFreeIsOneField | app.py:196 | the times part of a label, having no vertical bar, is one field |
| SlotLabel.TimesSplit | app.py:196 | times without a hyphen come back from splitting the times part at the hyphen |
| SlotLabel.LabelRoundTrip | app.py:191-196 | reading back the label of an option with no vertical bar in its fields and no hyphen in its times gives the option |
| SlotLabel.BarInDateBreaksRoundTrip | app.py:191-196 | a date ending in a space and a vertical bar does not survive the round trip |
| Workflow.AppointmentType | app.py:197-198 | the screen selects the new-patient path exactly for a duration other than 30 |
| Workflow.SelectedRowIsUnique | app.py:76-102 | in a grid with unique slots a lookup by start or end time selects exactly one row, the one it finds first |
| Workflow.OfferedRowIsBooked | app.py:182-198 | booking an offered 30-minute option succeeds and marks exactly its row |
| Workflow.LocatePair | app.py:75-84 | for an offered longer option on a grid with unique slots, the start and end lookups each find one free row and select no other |
| Workflow.OccupiedPair | app.py:91-95 | a row is occupied by a longer option exactly when it is the row found by the start lookup or the one found by the end lookup |
| Workflow.OfferedPairIsBooked | app.py:182-198 | booking an offered longer option succeeds and marks exactly the row it starts in and the row it ends in |
| Workflow.OfferedOpeningIsBooked | app.py:182-198 | booking any offered option in a grid with unique slots succeeds, keeps the number of rows, and marks exactly the rows the option occupies |
| Workflow.ChosenOptionIsBooked | app.py:182-198 | for any option the search offers on a grid with unique slots, when the option prints cleanly "Confirm Booking" reads its label back as that option and books it successfully |
| Workflow.OfferedOptionIsPrintable | app.py:191 | on a grid whose rows all print cleanly, every offered option prints cleanly |
| Workflow.TwoRowsGiveOnePair | app.py:46-65 | two free back-to-back rows of one date, in order, give exactly one longer option |
| Workflow.RaoHourIsOffered | app.py:46-65 | Dr. Rao's rows 09:00-09:30 and 09:30-10:00 on 2024-06-01 give the single one-hour option 09:00-10:00 |
| Workflow.RaoRowsAreFree | app.py:49-50 | both of Dr. Rao's rows pass the filter for Dr. Rao, the clinic and 2024-06-01 |
| Workflow.RaoRowsInOrder | app.py:51-64 | Dr. Rao's two rows are in (date, start) order and back to back |
| Workflow.TwoRowsAreBookedTogether | app.py:67-96 | booking the option of two such rows marks both |
| Workflow.RaoHourIsBooked | app.py:67-96 | booking that option for patient NP-123 marks both rows for NP-123 as a new patient |

## Left out

- The Streamlit screens and their session state (app.py:136-260). `Workflow` keeps only the duration chosen at app.py:182 and the label flow of app.py:191-198, and leaves out the screen events.
- Loading and saving the roster and the grid, and the admin export (app.py:17-27, 112-116). These are spreadsheet and CSV file I/O.
- The e-mail and SMS stubs (app.py:118-133). They only write text files.
- The reminder CSV (app.py:210-228, 243-247). It is a file read-modify-write in screen handlers.
- Patient ids made from the clock (app.py:168). The patient id is a parameter.
- Classifier.ClassifyPatient: does not model `pd.to_datetime(dob)` (app.py:33). The date of birth is taken as an already normalised `YYYY-MM-DD` string, because date parsing belongs to pandas.
- SlotFinder.FindSlots: the start date is taken as its `YYYY-MM-DD` string, because `strftime` (app.py:50) is a library call.
- Text.Lower: maps ASCII letters only. Python's `lower()` also maps other letters, and Unicode case tables are not modelled.
- SlotFinder.SortByDateStart: modelled as a stable insertion sort, which is what pandas' multi-column sort promises. Stability is proved by `SlotFinder.SortKeepsTiesInOrder`. No proof is made against pandas' own sorting code.
- The defaults `duration_min=30` (app.py:46) and `notes=""` (app.py:67) are not modelled. Both are ordinary parameters of `SlotFinder.FindSlots` and `Booking.BookSlot`, and the screen passes both at its call sites.
- Row labels are grid positions. The index labels from `df.index[mask].tolist()` and `df.loc[i, ...]` (app.py:75-95, 100-109) are the positions 0, 1, 2, ... because the grid is read from a spreadsheet with pandas' default index.
- Empty (NaN) cells are not modelled. Every cell is a string.
- SlotLabel.LabelRoundTrip: proved for options with no `'|'` in the date or times and no `'-'` in the times. Requiring only that the date contain no `" | "` is not enough, as `SlotLabel.BarInDateBreaksRoundTrip` shows.
- A parse failure at app.py:196 raises IndexError in Python. `Workflow.Confirm` returns None for it instead.
- Two sessions booking the same saved grid at once is not modelled. The code runs each booking on its own copy and gives no guarantee about concurrent ones.
