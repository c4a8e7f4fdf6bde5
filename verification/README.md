# TimetablePro scheduling core in Dafny

This project models the timetable-construction core of TimetablePro, a college
timetable generator. A teaching week has five days of twelve hourly slots. A year's
timetable is a matrix with one row per slot (`day * 12 + slot`) and one column per
room. Each cell is empty or holds the index of a class, meaning one weekly session of
a subject for some batches (groups).

The modules follow the source files:

- `model.dfy` (`Model`): rooms, classes and the matrix layout shared by everything
  else. The source's own `model` module is not part of this model.
- `text.dfy` (`Text`): the few Python string operations the core relies on. These are
  decimal rendering and parsing, zero padding, `strip`, substring tests and string
  ordering.
- `config_adapter.dfy` (`ConfigAdapter`): `config_adapter.py`. It expands a year's
  configuration into rooms, batches, teachers and one class per weekly session, and
  maps each class's requested room type to the indices of the matching rooms.
- `timetable.dfy` (`Timetable`): the `filled` dictionary (class index to fields), the
  `free` list, and the pass that writes `filled` into the matrix. `filled` is an
  association list, because dictionary insertion order decides which class the
  matrix shows when two claim one field.
- `matrix_ops.dfy` (`MatrixOps`): the helpers of `scheduler.py`. These are
  `insert_order`, `exchange_two`, `valid_teacher_group_row` and `mutate_ideal_spot`.
- `lab_map.dfy` (`LabMap`): `build_lab_map_from_config` and the lab-room lookup of
  `schedule_labs_first`.
- `lab_phase.dfy` (`LabPhase`): `schedule_labs_first`, covering the lab order, the two
  capped passes over lab windows, and the final retry.
- `lecture_phase.dfy` (`LecturePhase`): the lecture part of `initial_population`. It
  covers the capacity warnings, the per-day target, the batch free-check and
  reservation (for lectures and labs), and the scan over the free list with its
  preferred and fallback placements.
- `resource_manager.dfy` (`ResourceManager`): the `ResourceManager` class of
  `scheduler_improved.py`, as an immutable record with pure transitions.
- `improved_scheduler.dfy` (`ImprovedScheduler`): `improved_initial_population`.
- `time_grid.dfy` (`TimeGrid`): the time labels of both web front ends and the
  free-row filter.
- `render.dfy` (`Render`): the plain table, the simple occupied/free table and the day
  grid with merged lab rows and break rows.
- `audit.dfy` (`Audit`): `_audit_schedule`.
- `cross_year.dfy` (`CrossYear`): `_resolve_cross_year_room_conflicts`. It moves a
  later year's clashing block to another room or a later slot.

Python dictionaries keyed `0..n-1` are sequences. Nested `defaultdict`s are flat maps
keyed by the whole path, except the per-day counters of `improved_initial_population`:
those are built with two levels but indexed once, which raises a TypeError (see
"## Findings"). The flat counters evidently intended are the model's corrected form. Printed messages are small datatypes that carry the numbers
the message shows. Where the source has a defect, the model keeps the code as written
and the corrected variant side by side, chosen by an `asWritten` flag. The lecture
phase's `InitialPopulation` and `ImprovedInitialPopulation` both take the flag.

## Model

| member | source | states |
|---|---|---|
| Text.ParseNatToString | config_adapter.py:10 | the decimal rendering of a number reads back as that number |
| Text.NatToStringInjective | config_adapter.py:10 | different numbers render as different decimal strings |
| Text.Strip | scheduler.py:36 | `strip` removes exactly whitespace from both ends and leaves a result that neither starts nor ends with whitespace |
| Text.StripIdempotent | scheduler.py:36 | stripping twice is stripping once |
| Text.StrLessTotal | scheduler.py:238 | Python string order relates any two different strings one way or the other |
| Text.StrLessTransitive | scheduler.py:238 | Python string order is transitive |
| Text.StrLessAsymmetric | scheduler.py:238 | Python string order never holds both ways |
| ConfigAdapter.LabDuration | config_adapter.py:62 | a lab lasts at least one slot, and exactly `lab_hours` slots when that is at least one |
| ConfigAdapter.ClassroomNamesDistinct | config_adapter.py:9-10 | the generated names `CR-1`, `CR-2`, … never collide |
| ConfigAdapter.BuildClassrooms | config_adapter.py:6-18 | `max(0,nc) + max(0,nl)` rooms under keys `0..n-1`; the first `nc` are classrooms `'n'` named `CR-{i+1}`, the rest labs `'r'` named `lab_names[i]` when that entry exists and is non-empty, else `Lab-{i+1}` |
| ConfigAdapter.RoomsOfType | config_adapter.py:74-81 | the converted room list holds exactly the indices of rooms of the requested type, ascending |
| ConfigAdapter.GroupNames | config_adapter.py:40-43 | one group `{year}-B{b+1}` per batch, with id `b` |
| ConfigAdapter.GroupNamesDistinct | config_adapter.py:40-42 | batch group names are pairwise distinct, so each batch gets its own id |
| ConfigAdapter.EnsureTeacher | config_adapter.py:33-35 | a teacher name is inserted only when absent; existing ids are kept and no name appears twice |
| ConfigAdapter.TeachersOf | config_adapter.py:50-64 | a subject adds its lecture teacher when it has lectures and its lab teacher when it has labs, and nothing else |
| ConfigAdapter.Teachers | config_adapter.py:48-64 | the teacher dictionary holds every needed teacher exactly once |
| ConfigAdapter.PerGroup | config_adapter.py:53-58 | `k` sessions per group, groups in id order: entry `i` belongs to group `i / k` |
| ConfigAdapter.SubjectBlock | config_adapter.py:48-71 | a subject contributes `max(0,hours)` lectures then `max(0,labs)` labs per batch, lectures first, each batch's sessions together |
| ConfigAdapter.Expand | config_adapter.py:47-71 | the number of classes is the batch count times the sessions of all subjects |
| ConfigAdapter.ExpandLayout | config_adapter.py:47-71 | class keys are contiguous and follow subject order: subject `k`'s classes occupy one contiguous key range, right after subject `k-1`'s |
| ConfigAdapter.ExpandKinds | config_adapter.py:50-71 | every class is a lecture (`'P'`, duration 1, room type `'n'`, subject name) or a lab (`'L'`, duration `max(1, lab_hours)`, room type `'r'`, `lab_name or name`), with one group below the batch count |
| ConfigAdapter.InitOrder | config_adapter.py:57-70 | every (subject, group) of a created class gets the `[-1,-1,-1]` entry; other keys keep their value |
| ConfigAdapter.BuildData | config_adapter.py:21-83 | the year's data: the rooms, groups and teachers above, and one class per session in key order with its room list converted |
| ConfigAdapter.ConvertedRooms | config_adapter.py:74-81 | after conversion a class's room list is exactly the ascending list of rooms of its requested type |
| LabMap.Assign | scheduler.py:51 | dictionary assignment: the key maps to the new value, other keys are unaffected, a new key is appended |
| LabMap.LabRoomNamesInOrder | scheduler.py:24-30 | the lab-room name table has one entry per `'r'` room, and entry `j` is the name of the j-th `'r'` room in index order |
| LabMap.BuildLabMap | scheduler.py:14-54 | the lab map has distinct keys and at most one entry per lab-bearing subject |
| LabMap.LabMapKeys | scheduler.py:34-40 | a key is present iff some subject with `labs > 0` and a non-empty name has it as `lab_name or name` |
| LabMap.LabMapValues | scheduler.py:42-52 | the value under a key is the room chosen for the last subject with that key: explicit `lab_name`, then `lab_names[k]`, then the k-th lab room, then `Lab-{k+1}`, where `k` counts lab-bearing subjects |
| LabMap.OneEntryPerLabSubject | scheduler.py:34-52 | with pairwise different keys there is exactly one entry per lab-bearing subject |
| LabMap.BuiltLabRoomNames | scheduler.py:24-30 | on rooms built by `_build_classrooms` the k-th lab room name is the k-th generated lab name |
| LabMap.LabMapNamesBuiltRoom | scheduler.py:42-47 | a subject without `lab_name` numbered `k` is mapped to the name of room `nc + k`, which is a lab |
| LabMap.SubjectToLabName | scheduler.py:65-76 | the reverse map has distinct keys and at most one entry per lab-bearing subject |
| LabMap.SubjectToLabNameKeys | scheduler.py:67-72 | a subject name is a key iff some subject with `labs > 0` and a non-empty name carries it |
| LabMap.SubjectToLabNameValues | scheduler.py:72-76 | the value under a subject name is the stripped `lab_name` of the last lab-bearing subject so named, or that name with ` Lab` appended when its `lab_name` is empty |
| LabMap.MapsEmptyTogether | scheduler.py:78-82 | the lab map and the reverse map are empty exactly when no subject carries labs |
| LabMap.ReverseLookup | scheduler.py:253-256 | finds an original subject whose lab name is the class's subject iff one exists |
| LabMap.OrElse | scheduler.py:255 | Python's `v or default` on an optional string |
| LabMap.ExpectedLabNameIsMapOrSubject | scheduler.py:250-260 | the expected lab name is the lab map's entry for the subject, or else the subject itself: the reverse lookup never changes the outcome |
| LabMap.FirstMatchingLab | scheduler.py:264-269 | the first lab room, in index order, whose name equals, contains or is contained in the expected name |
| LabMap.FirstLab | scheduler.py:272-275 | the first lab room in index order |
| LabMap.ChooseLabRoom | scheduler.py:262-280 | no room iff there is no lab; otherwise the first matching lab, or the first lab when none matches |
| LabMap.ExactNameFound | scheduler.py:264-268 | a lab named exactly as expected is found, at its index or at an earlier matching lab |
| LabPhase.KeyOrder | scheduler.py:238 | the sort key `(duration, subject)` under Python's tuple order is a strict total order |
| LabPhase.SortByKey | scheduler.py:238 | the sort returns a permutation of the lab classes |
| LabPhase.SortByKeyOrdered | scheduler.py:238 | the sort with `reverse=True` orders by descending key and keeps equal keys in input order, as Python's stable sort does |
| LabPhase.InsertDescending | scheduler.py:238 | inserting one more class into a list ordered by descending key keeps it so ordered |
| LabPhase.InsertStable | scheduler.py:238 | inserting a class with a larger index than all listed keeps equal keys in index order |
| LabPhase.LabOrder | scheduler.py:192-238 | the lab list holds exactly the classes of type `'L'`: every branch of the name matching appends the class |
| LabPhase.LabOrderSorted | scheduler.py:192-238 | the lab list is a permutation of the `'L'` classes, longest first, then by subject descending, ties in index order |
| LabPhase.FindWindow | scheduler.py:311-373 | the first (day, window) in day-then-window order where the batch has fewer than two labs that day and none of the subject, the slots lie in the window and off the breaks, each row has a free field, the lab and the batch are free, and no teacher or group clashes; none iff no such pair exists |
| LabPhase.Book | scheduler.py:378-398 | placing a lab marks the lab and the batch busy for every slot of the session, appends its fields to `filled`, removes them from `free`, and touches no other class |
| LabPhase.WithRoom | scheduler.py:283-285 | the chosen lab is added to the class's rooms when missing; nothing else is added |
| LabPhase.LabDirectory | scheduler.py:93-100 | lab name to room index: every entry names a lab room called by that name, keys distinct |
| LabPhase.SecondPass | scheduler.py:424-445 | an alternate lab is another lab room, allowed for the class, with a window passing all the first-pass checks |
| LabPhase.RetrySearch | scheduler.py:575-620 | the first (day, window, lab) in the retry's order that passes its checks; none iff none does |
| LabPhase.ShapedAvoidsBreaks | scheduler.py:164 | a booked lab slot lies inside one of the windows `[0,1]`, `[5,6]`, never on a break |
| LabPhase.PassesKeep | scheduler.py:244-543 | after the first two passes no lab and no batch is booked twice at any slot, every booking starts a window on a teaching day, every booking's fields are in `filled` under its class, and `filled` keeps unique keys within the matrix |
| LabPhase.RetryKeeps | scheduler.py:563-660 | the retry keeps the same invariant, although it checks the lab and the batch only at the window's first slot |
| LabPhase.PassesCaps | scheduler.py:315-322 | the first two passes never give a batch a third lab on one day, nor a second lab of one subject |
| LabPhase.ScheduleLabCaps | scheduler.py:315-322 | one class of the first two passes never gives a batch a third lab on a day, nor a second lab of one subject |
| LabPhase.BookInFilled | scheduler.py:379-390 | a booking appends its block's fields to `filled` under its class and keeps every earlier booking's fields there |
| LabPhase.ScheduleLabKeeps | scheduler.py:244-543 | one class of the first two passes keeps the lab-phase invariant: no lab or batch booked twice at a slot, bookings at window starts, every booking's fields filed in `filled` under its class, `filled` keeping unique keys within the matrix |
| LabPhase.ScheduleLabNoRoom | scheduler.py:271-280 | a lab class is skipped for want of a room iff there is no lab room at all |
| LabPhase.ScheduleLabAccounts | scheduler.py:244-543 | one class of the first two passes ends in exactly one place: booked, unplaced, or skipped for want of a room |
| LabPhase.ScheduleLabCases | scheduler.py:244-543 | one class of the first two passes is either booked once, by pass 1 or pass 2, with its day, window start, room and lab name, or left with no booking and only its index appended to the unplaced or no-room list |
| LabPhase.PassesAccount | scheduler.py:244-543 | every class of the lab order is accounted for exactly once after the first two passes |
| LabPhase.RetryLabAccounts | scheduler.py:563-660 | one class of the retry is already in `filled`, or now booked by the retry, or listed as unplaced by the retry |
| LabPhase.RetryAccounts | scheduler.py:563-660 | after the retry every lab class with a positive duration is in `filled` or listed as unplaced |
| LabPhase.ScheduleLabsFirst | scheduler.py:544-549 | writing `filled` into the matrix keeps its shape, and `filled` keeps one entry per class |
| LabPhase.LabPhaseOutcome | scheduler.py:57-664 | with no lab-bearing subject nothing changes; otherwise bookings start lab windows in lab rooms, no lab or batch is booked twice, the first two passes respect the day caps, and every lab class of positive duration is placed or listed |
| LecturePhase.CapacityWarnings | scheduler.py:762-778 | a lecture warning exactly when the lectures outnumber classrooms times 30 slots, a lab warning exactly when the labs outnumber labs times 30; each warning carries the count of its kind as demand and the number of rooms of its type, with 30 slots per room, and its demand exceeds its slots |
| LecturePhase.LectureTarget | scheduler.py:808-810 | the per-day target is zero exactly when there are no lectures, and otherwise the least number of lectures a day that covers all lectures in five days |
| LecturePhase.LecturePool | scheduler.py:786-796 | the pool holds exactly the lecture classes not already in `filled`, in ascending class order |
| LecturePhase.Reserve | scheduler.py:835-838 | after a reservation the batch is held by the room at every row of the block, and every other entry of the batch occupancy is unchanged |
| LecturePhase.ReserveLab | scheduler.py:839-840 | a lab marks its room at every row of its block and adds nothing else; other kinds leave the lab occupancy as it was |
| LecturePhase.PastDayEndNotFree | scheduler.py:817-820 | a block that runs past the end of its day is never free |
| LecturePhase.ReservedNotFree | scheduler.py:817-840 | after a reservation the batch is not free in another room at an overlapping row, and after a lab's reservation its room is not free for any lab at an overlapping row |
| LecturePhase.PreferredStarts | scheduler.py:888-899 | the preferred starts are exactly slots 0, 1 and 5 of the days whose preferred placements are below the target and on which the first group has no lecture of the subject |
| LecturePhase.InPool | scheduler.py:918-920 | the available rooms are exactly the class's rooms that are classrooms |
| LecturePhase.TryPreferred | scheduler.py:901-972 | a (start, room) pair from the current loop position on that passes the day, cap, free-field, row and batch tests; none only when no remaining pair passes them |
| LecturePhase.PreferredStartShape | scheduler.py:898-899 | every preferred start is slot 0, 1 or 5 of a teaching day |
| LecturePhase.Preferred | scheduler.py:886-976 | a preferred placement passes every test, is in a classroom the class may use, and starts at slot 0, 1 or 5 of a teaching day |
| LecturePhase.Scan | scheduler.py:848-1041 | a preferred result is the preferred attempt's pair; a fallback result is a free-list entry at or after the scan position that passes the gate, has its whole block free and puts no group over the cap |
| LecturePhase.ScanPlaceable | scheduler.py:848-1041 | whatever the scan returns is placeable: a classroom the class may use, every field of the block free, the batch free, no group over the cap, and a preferred start on a day below the target |
| LecturePhase.Place | scheduler.py:941-966 | placing a lecture appends its booking, reserves the batch, removes exactly the block's fields from the free list and adds them to the class's entry in `filled`, leaving other classes' entries alone |
| LecturePhase.BookedNotFree | scheduler.py:954-958 | a row a placed lecture covers is no longer free in its room |
| LecturePhase.PlaceConserves | scheduler.py:1027-1029 | free fields and placed fields together stay exactly the original free list |
| LecturePhase.PlaceShapedAndCapped | scheduler.py:961-966 | placing keeps every lecture well placed, no group with one subject twice a day, and no day above the target of preferred placements |
| LecturePhase.PlaceBatchApart | scheduler.py:817-840 | after a placement that passed the batch test, no two lectures of one batch share a row |
| LecturePhase.PlaceOccRecorded | scheduler.py:835-838 | the batch occupancy records the room of every placed lecture at each of its rows |
| LecturePhase.OccAfterReserve | scheduler.py:835-838 | reserving a new lecture that shares no row with another lecture of its batch keeps every placed lecture recorded in the batch occupancy |
| LecturePhase.PlaceKeeps | scheduler.py:941-1036 | a placement of a placeable lecture keeps the whole lecture-phase invariant |
| LecturePhase.LecturesKeep | scheduler.py:843-1046 | the loop over the lecture pool keeps the whole lecture-phase invariant |
| LecturePhase.ScheduleLectureKeeps | scheduler.py:843-1046 | one iteration of the lecture loop keeps the whole lecture-phase invariant |
| LecturePhase.ScheduleLectureAccounts | scheduler.py:843-1046 | each iteration either books the class or logs it as unplaced, once |
| LecturePhase.LecturesAccount | scheduler.py:843-1046 | over the whole loop, bookings plus the conflict log are exactly the classes of the order, with multiplicity |
| LecturePhase.ScanStep | scheduler.py:853-862 | an entry that does not end the scan moves it on by one, or by two when the block's later field is missing in the code as written |
| LecturePhase.ScanComplete | scheduler.py:848-1041 | the scan that advances one entry at a time gives up only when no entry fits the fallback and the preferred attempt failed wherever it was tried |
| LecturePhase.ScanSkipsAsWritten | scheduler.py:856-862 | with one classroom, one two-slot lecture and rows 0, 2 and 3 free, the scan as written places nothing while the one-step scan places it at row 2 |
| LecturePhase.InitialPopulation | scheduler.py:743-1051 | the lecture phase keeps the matrix's shape and `filled`'s keys unique, and a cell it changes shows a class that has an entry in `filled` |
| LecturePhase.InitialPopulationOutcome | scheduler.py:743-1051 | with either scan, as written or corrected, after the lecture phase every booking is a lecture in an allowed classroom within one day, no group repeats a subject on a day, no day exceeds the target, no batch is double booked, every placed field came off the free list, and every pooled lecture is booked or logged once |
| ResourceManager.NewManager | scheduler_improved.py:15-33 | rooms of type `n` are exactly the classroom pool, rooms of type `r` exactly the lab pool, the two pools are disjoint, and both occupancy maps start empty |
| ResourceManager.IsRoomFree | scheduler_improved.py:38-57 | free exactly when every slot of the range lies inside the day, is not held by the (year, batch), and, for a lab room, is not marked in the lab map |
| ResourceManager.IsRoomFreeAsWritten | scheduler_improved.py:38-57 | the same test with the batch check read as the value's truthiness, so a stored room 0 does not count |
| ResourceManager.FreeStaysInDay | scheduler_improved.py:42-44 | a free range of a non-empty session ends within the day |
| ResourceManager.ReserveSlot | scheduler_improved.py:88-98 | the batch holds the room at every slot of the range, a lab room is marked at exactly those slots, and every other entry is unchanged |
| ResourceManager.ReleaseSlot | scheduler_improved.py:100-110 | exactly the range's entries for this batch, and for a lab room its lab marks, are removed; every other entry keeps its value |
| ResourceManager.ReserveGrows | scheduler_improved.py:88-98 | a reservation only adds: every held key stays held and every new key carries the reserving year |
| ResourceManager.ReserveBlocksBatch | scheduler_improved.py:38-98 | after a reservation the same (year, batch) finds no overlapping range free that day, in any room |
| ResourceManager.ReserveBlocksLab | scheduler_improved.py:52-55 | after reserving a lab room no year or batch finds an overlapping range of that room free |
| ResourceManager.ReleaseUndoesReserve | scheduler_improved.py:88-110 | releasing a reservation made on empty slots gives back exactly the state before it |
| ResourceManager.RoomZeroReservationUnseen | scheduler_improved.py:49 | as written, right after a batch reserves classroom 0 the same range still reads as free for that batch, while the key-presence test refuses it |
| ResourceManager.AsWrittenAgreesWithoutRoomZero | scheduler_improved.py:49 | when no stored room is 0 the as-written and corrected tests agree |
| ResourceManager.UnreservedYearSeesOnlyLabs | scheduler_improved.py:144-150 | under a year nobody reserved for, a range is free exactly when it is inside the day and unmarked in the lab map |
| ResourceManager.UnreservedYearAgrees | scheduler_improved.py:49 | under a year nobody reserved for, the as-written and the corrected batch tests give the same answer |
| ResourceManager.ValidateCapacity | scheduler_improved.py:119-142 | a classroom warning exactly when lecture sessions exceed five per classroom, a lab warning exactly when lab sessions exceed five per lab, and nothing else |
| ResourceManager.FirstRoom | scheduler_improved.py:72-76 | the first of the class's rooms from the position on that is in the pool and free; none exactly when no such room exists |
| ResourceManager.FirstFit | scheduler_improved.py:70-76 | the first (slot, room) in loop order that fits, with nothing earlier fitting; none exactly when nothing fits |
| ResourceManager.FallbackSlots | scheduler_improved.py:79 | the fallback slots are exactly 0 up to 12 minus the duration, in order, and none when the duration exceeds 13 |
| ResourceManager.FindAlternateRoomOrSlot | scheduler_improved.py:59-86 | the result is a pool room of the class that is free at its slot of the day; a preferred slot wins when any fits; none exactly when no preferred or fallback slot fits in any room |
| ResourceManager.FindAlternateFirstFit | scheduler_improved.py:69-84 | the answer is the first fitting (slot, room) in the search's order, slots before rooms, among the preferred slots, or among the fallback slots when no preferred one fits |
| ImprovedScheduler.PriorityOrder | scheduler_improved.py:161-187 | the order holds exactly the lab and lecture classes, every lab before every lecture, each kind in ascending index order (the sort key is constant) |
| ImprovedScheduler.LabsThenLectures | scheduler_improved.py:181-187 | the lab indices followed by the lecture indices hold exactly the labs and lectures, every lab first, each kind in index order |
| ImprovedScheduler.Bump | scheduler_improved.py:274-279 | with the day counters corrected, each (subject, group, day) count rises by the number of times the group is listed, and no other count changes |
| ImprovedScheduler.SessionFields | scheduler_improved.py:257-259 | a session's fields are its consecutive rows from the start row of the day, in its room |
| ImprovedScheduler.CountsRecordNew | scheduler_improved.py:273-279 | with the day counters corrected, after a placement the day is counted for every group of the placed class, in the lecture or the lab counts by kind |
| ImprovedScheduler.OccupancySeparates | scheduler_improved.py:38-57 | a recorded placement and a session the manager finds free never share a lab-room slot, nor, when reservations are filed under the lookup year, a batch slot |
| ImprovedScheduler.PlaceClashFree | scheduler_improved.py:216-254 | a class placed on a day its cap allows at a found (slot, room) clashes with no earlier placement |
| ImprovedScheduler.PlaceInv | scheduler_improved.py:245-281 | one placement keeps the loop invariant: pools unchanged, fields within the matrix, every placement well placed and recorded, no clashes |
| ImprovedScheduler.TryDaysInv | scheduler_improved.py:216-281 | with the day counters corrected, the search over the days keeps the loop invariant |
| ImprovedScheduler.TryDaysAccounts | scheduler_improved.py:216-284 | with the day counters corrected, handling one class adds exactly one record: a placement of that class, or the class to the unplaced list |
| ImprovedScheduler.TryDaysPlaces | scheduler_improved.py:216-281 | with the day counters corrected, on the first day not skipped where a (slot, room) is found, the class is placed there and the manager and the counts are updated for it |
| ImprovedScheduler.RunInv | scheduler_improved.py:202-284 | with the day counters corrected, the whole loop keeps the invariant |
| ImprovedScheduler.RunAccounts | scheduler_improved.py:202-284 | with the day counters corrected, every class of the order is placed or reported as not placed, exactly once |
| ImprovedScheduler.PlaceAll | scheduler_improved.py:202-284 | with the day counters corrected, the loop from a fresh resource manager keeps the invariant and records every class of the priority order exactly once |
| ImprovedScheduler.ImprovedInitialPopulation | scheduler_improved.py:153-289 | with the day counters corrected, the matrix keeps its shape and gains only classes in `filled`; every lab and lecture is placed or reported once; placements are in the class's rooms from its pool within one day; no lecture subject repeats on a day for a group, no lab room is double booked; corrected, no lab subject repeats on a day and no batch is double booked; every placement's fields are in `filled` under its class, each shows a class in the matrix and shows its own class when no other class claims the field; from a free list without repeats, no placed field stays free; the capacity warnings are exactly those of `validate_capacity` |
| ImprovedScheduler.FirstRaise | scheduler_improved.py:202-229 | the position in the loop order of the first class that reaches the day counters (a lecture, or a lab with groups): every class before it does not, and there is none iff no class of the order does |
| ImprovedScheduler.ImprovedInitialPopulationAsWritten | scheduler_improved.py:198-229 | as written, the function raises iff some lab or lecture reaches the day counters, at such a class of the priority order, having placed only labs without groups; otherwise it returns exactly what the loop with flat counters returns |
| ImprovedScheduler.StateAtRaise | scheduler_improved.py:202-229 | the state left when the loop raises holds placements of labs without groups only |
| ImprovedScheduler.PrefixPlacements | scheduler_improved.py:202-281 | a loop over labs without groups, from nothing placed or unplaced, places only those labs |
| ImprovedScheduler.RaisedPrefix | scheduler_improved.py:202-229 | every class the loop handles before the first that reaches the counters is a lab without groups |
| ImprovedScheduler.TryDaysLeavesCounters | scheduler_improved.py:216-279 | the day search for a class that never reaches the counters leaves both counter maps unchanged |
| ImprovedScheduler.RunLeavesCounters | scheduler_improved.py:202-279 | a loop over classes that never reach the counters leaves both counter maps unchanged, so the flat counters play no part in any run the source completes |
| ImprovedScheduler.RaisesAtFirst | scheduler_improved.py:198-229 | when the first class of the priority order reaches the counters, the run raises at it with nothing placed, reserved or taken from `free` |
| ImprovedScheduler.TwoClassesOrder | scheduler_improved.py:161-187 | on two lectures or two labs of group 0, class 0 comes first in the priority order and reaches the counters |
| ImprovedScheduler.CountersRaiseAsWritten | scheduler_improved.py:198-229 | as written, on two lectures or two grouped labs the TypeError comes at class 0 on Monday, before anything is placed |
| ImprovedScheduler.LabDayCapIgnoredAsWritten | scheduler_improved.py:226-229 | with the day counters corrected and the lab cap as written, two labs of one subject for one group both land on Monday, at slots 0 and 1 |
| ImprovedScheduler.LabDayCapKeptCorrected | scheduler_improved.py:226-229 | with the day counters corrected and the day skipped once the subject has a lab that day, the second lab goes to Tuesday and no lab-day clash remains |
| ImprovedScheduler.YearMismatchDoubleBooks | scheduler_improved.py:250 | with the day counters corrected and the year as written, reservations under "Year" are invisible to lookups under "Unknown", so two lectures of group 0 take the same slot; with one year the second takes the next slot |
| Timetable.Put | scheduler.py:1128-1129 | after `filled[k] = v` the key maps to `v`, every other key keeps its entry, an existing key keeps its place and a new key goes last |
| Timetable.Pop | scheduler.py:1184 | after `filled.pop(k, None)` the key is gone, every other key keeps its entry, and a missing key leaves `filled` as it was |
| Timetable.Extend | scheduler.py:1197-1198 | `setdefault(k, []).append(...)` leaves the key's fields followed by the new ones, and every other key untouched |
| Timetable.RemoveFirst | scheduler.py:1199 | `list.remove` drops exactly the first occurrence when the value is present and changes nothing otherwise |
| Timetable.RemoveAll | scheduler.py:1027-1029 | removing a block's fields one by one leaves the free list minus those fields, as multisets |
| Timetable.FillMatrix | scheduler.py:1048-1051 | a field claimed in `filled` shows the class that claims it last in insertion order; an unclaimed field keeps its content; the shape is kept |
| Timetable.FillDisjoint | scheduler.py:1048-1051 | when no two classes claim one field, every claimed field shows its class |
| Timetable.FillShowsFilled | scheduler.py:1048-1051 | a cell the fill changes holds a class that has an entry in `filled` |
| MatrixOps.InsertOrder | scheduler.py:1104-1113 | a missing (subject, group) entry is an error; otherwise exactly the lecture, `V` or other start time changes according to the type, and every other entry is unchanged |
| MatrixOps.InsertOrderLastWins | scheduler.py:1104-1113 | two inserts of one type: the later start time wins |
| MatrixOps.InsertOrderCommutes | scheduler.py:1104-1113 | inserts of two different slots of the entry commute |
| MatrixOps.SwapCells | scheduler.py:1124-1126 | swapping two cells exchanges their contents and leaves every other cell alone |
| MatrixOps.SwapAllCells | scheduler.py:1123-1126 | after the swap loop over distinct pairs each field of one class holds what its partner field held before, and the other way round |
| MatrixOps.SwapAllOthers | scheduler.py:1123-1126 | the swap loop leaves every field outside both lists unchanged |
| MatrixOps.SwapAllSwaps | scheduler.py:1123-1126 | the swap loop over two equally long lists of distinct fields exchanges their contents and changes no other cell |
| MatrixOps.ExchangeTwo | scheduler.py:1116-1131 | fails exactly when a class is missing, both indices are equal, the second class has fewer fields or a field lies outside the matrix; otherwise the two entries of `filled` trade their fields and no other entry changes |
| MatrixOps.ExchangeTwoSwaps | scheduler.py:1116-1131 | for two classes of equal length on distinct fields, the matrix shows each class's old content at the other's fields and nothing else changes |
| MatrixOps.SwapAllTwice | scheduler.py:1123-1126 | swapping back restores the matrix |
| MatrixOps.ExchangeTwoTwice | scheduler.py:1116-1131 | exchanging the same two classes twice restores the matrix and every entry of `filled` |
| MatrixOps.RowClear | scheduler.py:1137-1144 | the rest of a row is clear exactly when none of its cells holds a class with the same teacher or a shared group |
| MatrixOps.ValidTeacherGroupRow | scheduler.py:1134-1145 | a row is valid exactly when no cell holds a class with the same teacher or a group in common |
| MatrixOps.ValidRowOnValidCells | scheduler.py:1137-1144 | when every cell names a class, as the lookup at line 1139 needs, a row is valid exactly when each occupied cell holds a class with another teacher and no shared group |
| MatrixOps.OwnRowInvalid | scheduler.py:1134-1145 | a row already holding the class itself is never valid for it |
| MatrixOps.FindSpot | scheduler.py:1159-1181 | the first free-list entry from the position on whose block stays in its day, is in one of the class's rooms, and is free in valid rows; none exactly when no entry fits |
| MatrixOps.RemoveValue | scheduler.py:1189-1190 | `list.remove` fails exactly when the value is absent and otherwise drops one occurrence |
| MatrixOps.ClearFields | scheduler.py:1185-1187 | the class's old fields are emptied and every other cell kept |
| MatrixOps.Release | scheduler.py:1185-1190 | the teacher's empty-space list loses exactly the rows of the old fields |
| MatrixOps.Claim | scheduler.py:1192-1193 | every group's order entry gets the new start time in the slot of the class's type; other entries are unchanged |
| MatrixOps.MutateIdealSpot | scheduler.py:1148-1202 | a class not in `filled`, or with no fitting spot, leaves everything as it was; otherwise it moves to the first fitting block: `filled` holds exactly that block for it, the free list gains the old fields and loses the new, and the matrix shows the class at the new fields, empties the old, and keeps everything else |
| MatrixOps.MutateKeepsConsistent | scheduler.py:1148-1202 | when the matrix agrees with `filled` and no filled field is free, it still agrees after the move |
| MatrixOps.MoveKeepsConsistent | scheduler.py:1183-1201 | a move of one class onto free fields keeps the matrix showing every class exactly at its fields |
| TimeGrid.SlotOfLabel | webapp/app.py:95-106 | the `i`-th label stands at slot number `i` to `i`+2, never at the short-break slot 2 or the lunch slot 4 |
| TimeGrid.LoopLayout | webapp/app.py:91-114 | from any slot number, the loop emits exactly the next labels of the layout that fit, each an hour from its start plus the breaks before it, and stops at the first that does not fit |
| TimeGrid.LoopStops | webapp/app.py:91-111 | where the cursor has reached the end, or the next hour would pass it, no further label is produced and the next label of the layout does not fit |
| TimeGrid.CursorStep | webapp/app.py:95-114 | a break slot moves the cursor by the break length and emits nothing; a regular slot emits the label at the cursor and moves on one hour |
| TimeGrid.TimeLabels | webapp/app.py:78-116 | the labels are exactly the layout's labels, in order, up to the first that does not fit before the end time |
| TimeGrid.LabelsInOrder | webapp/app.py:108-113 | each label lasts one hour and ends by the end time; with non-negative breaks each label ends before the next begins |
| TimeGrid.ClockText | webapp/app.py:112 | the clock text is five characters `hh:mm` reading back as the hour of the day and the minute |
| TimeGrid.LabelText | webapp/app.py:112 | a label's text is its start clock, a dash and its end clock |
| TimeGrid.HourLabels | api/routers/simple.py:62-66 | one label for each hour from the start hour up to the end hour, each from the hour to the next at the start minute |
| TimeGrid.LoopHours | api/routers/simple.py:62-66 | the loop counter runs through every hour from the start hour up to, not including, the end hour |
| TimeGrid.SimpleTimeLabels | api/routers/simple.py:58-67 | as many labels as whole hours between the start and end hours, the `i`-th starting at the start hour plus `i` |
| TimeGrid.HourLabelReadsBack | api/routers/simple.py:65 | an hour label reads back as its start hour, minute, end hour and minute |
| TimeGrid.AllowedRowsShape | webapp/app.py:56-63 | with at most a day's labels, a row is allowed exactly when it lies in the five teaching days at a label slot other than 2 and 4 |
| TimeGrid.FilterFree | webapp/app.py:64 | the filtered free list keeps exactly the fields on allowed rows, each as often as before (the order is stated by the two lemmas below) |
| TimeGrid.FilterFreeSingle | webapp/app.py:64 | a single field is kept iff its row is allowed |
| TimeGrid.FilterFreeAppend | webapp/app.py:64 | filtering a concatenation is the concatenation of the filtered parts; with the single-field case this fixes the result as the kept fields in their original order |
| Render.CellText | webapp/app.py:236-238 | an empty cell renders as `-`, a class as its index in decimal |
| Render.Table | webapp/app.py:236-238 | the table has the matrix's shape and each entry renders its cell |
| Render.TableReadsBack | webapp/app.py:236-238 | every table entry reads back as the cell it came from |
| Render.FirstOccupied | webapp/app.py:140-144 | the first occupied cell of a row from the position on, with every cell before it empty; none exactly when the rest is empty |
| Render.GridAt | webapp/app.py:135-144 | Saturday is always empty; on a teaching day the grid holds the first occupied column of the row exactly when the row is occupied |
| Render.SimpleRow | webapp/app.py:656-670 | a row holds its time label, then `X` for a teaching day exactly when its matrix row has a class and `-` otherwise, and `-` for Saturday |
| Render.SimpleTable | webapp/app.py:650-671 | the table is the header of `Time` and the six days followed by one simple row per label |
| Render.AppSimpleTable | webapp/app.py:650-671 | one row per label of the configured day, each starting with the label's text |
| Render.RouterSimpleTable | api/routers/simple.py:70-93 | one row per whole hour, each starting with that hour's label |
| Render.Run | webapp/app.py:170-178 | the run from a label covers exactly the consecutive labels showing the same class, within the day's labels |
| Render.CellAt | webapp/app.py:147-183 | a cell is free exactly when the grid is empty there, a skip exactly when the previous label shows the same class, and otherwise a session |
| Render.DayGridOf | webapp/app.py:119-199 | one row per label with six cells; rows 2 and 4 carry the break text with the configured length; every other cell is the rendered grid cell |
| Render.SaturdayFree | webapp/app.py:150-152 | the Saturday cell of every row that is not a break is free |
| Render.SpanCoversSkips | webapp/app.py:157-178 | a lab's rowspan stays within the day's labels, every row it covers is a skip, and the row after it is not |
| Audit.Bump | webapp/app.py:207 | `d[k] = d.get(k, 0) + 1` raises the count of `k` by one, changes no other count, lists `k`, and keeps the keys distinct |
| Audit.Tally | webapp/app.py:204-212 | the tally counts every key exactly as often as it occurs, lists exactly the keys that occur, once each |
| Audit.RequiredKeys | webapp/app.py:204-207 | one (groups, subject, type) key per class, in class order |
| Audit.AssignedKeys | webapp/app.py:208-212 | one key per entry of `filled`, the key of the class it names |
| Audit.MissingFrom | webapp/app.py:214-219 | the warnings are exactly those of the required keys, from the position on, that were placed fewer times than required |
| Audit.MissingSound | webapp/app.py:214-219 | every missing-session warning is about a key placed fewer times than required, and carries the difference |
| Audit.MissingComplete | webapp/app.py:214-219 | every key placed fewer times than required gets a warning |
| Audit.MissingWarnings | webapp/app.py:213-219 | a key gets a missing-session warning exactly when it is placed fewer times than required, and the warning carries the number missing |
| Audit.GroupListings | webapp/app.py:226-229 | each group is listed once for each class that lists it |
| Audit.OverFrom | webapp/app.py:230-232 | the warnings are exactly those of the groups, from the position on, whose total exceeds the weekly slots |
| Audit.OverWarnings | webapp/app.py:220-232 | a group gets a capacity warning exactly when its sessions exceed five days of usable slots, and the warning carries both numbers |
| Audit.AuditSchedule | webapp/app.py:202-233 | a key is reported missing exactly when it is placed fewer times than required, and a group is reported over capacity exactly when its sessions exceed the weekly usable slots |
| CrossYear.Conflict | webapp/app.py:305-314 | a lab column clashes exactly when it is in the taken lab set, a classroom column exactly when in the taken classroom set, a column of unknown type when in either, and a column in neither set never clashes |
| CrossYear.FindColumn | webapp/app.py:324-380 | the first of the class's rooms that is not taken by its type and is free in this year and unblocked by earlier years for the whole block; none exactly when no room is |
| CrossYear.CandidateInRange | webapp/app.py:385-390 | a shift candidate of a block in whole-day matrices lies within the matrix |
| CrossYear.FindShift | webapp/app.py:383-404 | the first later start within three slots, on the same day, that leaves the block inside the day and is free in this and every earlier year; none exactly when no such start exists |
| CrossYear.MoveCells | webapp/app.py:374-378 | after the move the old column is empty over the block's rows and the new column holds the class there; every other cell is unchanged |
| CrossYear.ShiftCells | webapp/app.py:405-410 | after the shift the block's old rows of the column are empty and its new rows hold the class, an old row the new block overlaps ending empty as the interleaved writes leave it; every other cell is unchanged |
| CrossYear.ShiftedExact | webapp/app.py:405-410 | when the block is intact the shift leaves the column exactly with the old rows emptied and the new rows holding the class |
| CrossYear.ShiftOrStay | webapp/app.py:382-412 | a block of at most three rows is shifted to a free later start of the same day, and otherwise stays put exactly when no such start exists |
| CrossYear.Relocate | webapp/app.py:319-412 | a clashing block moves to another allowed free column exactly when one exists, with its rows written there and cleared at the old column; otherwise it is shifted or left as the shift decides |
| CrossYear.HandleCellOutcome | webapp/app.py:288-415 | a cell is kept exactly when it does not start a clashing block; a kept or stuck block leaves the matrix unchanged; a block is stuck exactly when it clashes and neither a column nor a shift is found |
| CrossYear.ShiftCandidatesFrom | webapp/app.py:387 | every shift candidate lies at a later slot of the day |
| CrossYear.ColumnsFrom | webapp/app.py:289-415 | the pass over the columns of a row keeps the year's shape and warns at most once per column, always about this row and year; its warnings are exactly one per stuck turn of its column loop, in column order |
| CrossYear.ColumnTurnsRun | webapp/app.py:289-415 | the column loop visits every column from the start once, in order, each cell handled on the year's matrix as the previous cell's handling left it |
| CrossYear.YearTurnsRun | webapp/app.py:255-416 | the year loop at a row visits every year and column once, years in order, each on the matrices as the earlier years' passes left them |
| CrossYear.RowTurnsRun | webapp/app.py:250-416 | the row loop visits rows × years × columns turns, once each, in row, year, column order |
| CrossYear.YearsReported | webapp/app.py:255-416 | the warnings of the year loop at a row are exactly one per stuck turn of its run, in loop order |
| CrossYear.RowsReported | webapp/app.py:250-416 | the warnings of the row loop are exactly one per stuck turn of its run, in loop order |
| CrossYear.ReportedStuck | webapp/app.py:414-415 | a warning is reported exactly for a stuck turn, naming the turn's row and year |
| CrossYear.ResolveTurns | webapp/app.py:241-417 | for two or more years: every (row, year, column) is visited once in loop order; each cell is kept exactly when it does not start a clashing block, moved or shifted exactly when it clashes and a room or a later start can take it, and stuck otherwise; the warnings are exactly one per stuck turn, in order, naming its row and year |
| CrossYear.YearsFrom | webapp/app.py:255-416 | the pass over the years keeps every shape, never changes the first year or years already passed, and warns only about this row and later years |
| CrossYear.RowsFrom | webapp/app.py:250-416 | the pass over the rows keeps every shape and the first year, and warns only about rows in range and years after the first |
| CrossYear.Resolve | webapp/app.py:241-417 | one year or none is returned unchanged without warnings; otherwise every year keeps its shape, the first year is never changed, and warnings name only real rows and later years |
| CrossYear.FirstYearKept | webapp/app.py:261-264 | the first year has nothing taken, so its row is left alone without warnings |
| CrossYear.ClearRowKept | webapp/app.py:289-317 | a row where no block clashes is left alone without warnings |
| CrossYear.DisjointYearsKept | webapp/app.py:255-416 | when no year uses a column an earlier year uses at the same row, the years are unchanged and nothing is reported |
| CrossYear.DisjointRowsKept | webapp/app.py:250-416 | the same holds for every row from a given one on |
| CrossYear.DisjointUnchanged | webapp/app.py:241-417 | timetables whose years never share a column at a row come back unchanged and without warnings |

## Left out

- The evolutionary algorithm and simulated hardening (`evolutionary_algorithm`, `simulated_hardening`, scheduler.py:1205-1305). They depend on random numbers, floating-point temperatures and the cost functions of the `costs` module, which is not part of this model.
- `main`, every `print`, and the conflict and quota reports as text. Warnings are datatypes carrying their numbers, not formatted strings.
- The write-only bookkeeping the placement loops keep for the evolutionary phase or for printing: `groups_empty_space`, `teachers_empty_space`, `subjects_order` (outside `mutate_ideal_spot`), `classroom_occupancy`, `batch_schedule`, `subject_quota` and the batch-name strings. Nothing in the modelled core reads them back.
- Flask routes, sessions, authentication, the database layer, the FastAPI routers, the document and spreadsheet exports, and the Tk client. These are I/O around the core.
- The parsing of `hh:mm` strings in `_build_time_labels`. Times are `Clock` values, and both must be valid clock times. `datetime` arithmetic is minutes after midnight of one reference day.
- ConfigAdapter.SubjectConfig: a subject without `name`, or with labs but without `lab_name`, raises a key error in the source (config_adapter.py:52, 55, 64, 67 and 70, plain indexing). The model takes both fields as present; that failure is not modelled.
- Duplicate entries in the list of years given to the cross-year resolver. Years are identified by position.
- CrossYear.Resolve: requires all years to share the first year's shape, with whole days of twelve rows. The source assumes equal shapes and would raise an index error otherwise; the generated matrices are always 60 rows.
- CrossYear.ShiftCells: when a block is not intact in its column (only in a matrix whose rows disagree with `filled`), the interleaved writes of the shift leave the overlap rows empty, as modelled. Exactness is stated only for intact blocks.
- Render.DayGridOf, Render.AppSimpleTable and Render.RouterSimpleTable: require every label row of every teaching day to lie inside the matrix (`Readable`). With more than twelve labels (the router's 08:00-21:00 gives thirteen) the source's Friday lookup at row `t + 12 * day` runs past the 60-row matrix and raises an index error; that failure is not modelled.
- TimeGrid.AllowedRowsShape: stated only for at most twelve labels. With more, the rows of one day's labels reach into the next day, exactly as in `AllowedRows`.
- Audit.AuditSchedule: takes the number of labels of the configured day. The source recomputes it with the default break lengths (15 and 45 minutes) whatever the configuration says.
- Render.DayGridOf: takes the labels as strings. A lecture occupying several consecutive label rows renders its later rows as `SKIP` with a rowspan of 1, as the source does.
- ResourceManager.IsRoomFree: like the source, it never checks classroom (non-lab) double booking by another batch. Only the batch's own slots and the lab map are consulted.
- ResourceManager.FindAlternateRoomOrSlot: uses the corrected batch test. In the as-written run every reservation is filed under `"Year"` and every lookup asks for `"Unknown"`, so the two tests agree there (`UnreservedYearAgrees`); the corrected run files reservations under the lookup year and uses the corrected test throughout.
- LabPhase.RetrySearch: like the source, the final retry checks the lab and the batch only at the window's first slot.
- The label index of the web front end skips the break slots, while the free-row filter and the day grid treat label indices 2 and 4 as the breaks. Both are modelled as written; the resulting loss of two teaching hours a day is not treated as a defect, because the intent is not evident.
- ImprovedScheduler.ImprovedInitialPopulation: uses flat per-day counters, for both settings of `asWritten`. As written, the two-level `defaultdict` counters (scheduler_improved.py:198-199) raise a TypeError at lines 223, 228, 276 and 279 at the first lecture or grouped lab, and the matrix is never filled. That run is `ImprovedInitialPopulationAsWritten`; the promises of this member hold only for the counters corrected.
- ImprovedScheduler.Bump: models the flat counter update evidently intended; as written `+= 1` at lines 276 and 279 raises a TypeError.
- ImprovedScheduler.DaySkipped: tests flat counters; as written `>= 1` at lines 223 and 228 raises a TypeError.
- ImprovedScheduler.CountsRecordNew: holds with the day counters corrected; as written the count update raises.
- ImprovedScheduler.TryDaysInv: holds with the day counters corrected; as written a lecture or grouped lab raises before any placement.
- ImprovedScheduler.TryDaysAccounts: holds with the day counters corrected; as written a lecture or grouped lab raises and is never recorded.
- ImprovedScheduler.TryDaysPlaces: holds with the day counters corrected; as written a lecture or grouped lab raises before the search.
- ImprovedScheduler.RunInv: holds with the day counters corrected; as written the loop stops at the first lecture or grouped lab (`FirstRaise`).
- ImprovedScheduler.RunAccounts: holds with the day counters corrected; as written only the classes before `FirstRaise` are handled.
- ImprovedScheduler.PlaceAll: holds with the day counters corrected; as written the loop raises unless every class is a lab without groups.
- LecturePhase.SlotFreeForBatch: the lecture loop only ever asks with type `P`. The lab branch of the check is modelled separately as `BatchSlotFree` and `ReserveLab`.

## Findings

| source | as written | input that shows it | evidently intended | confidence | as-written member | corrected member |
|---|---|---|---|---|---|---|
| scheduler.py:856-862 | when a later field of the block is not free, `ind` is advanced in the inner loop and again at line 1041, so the next free entry is never tried | one classroom, one lecture of two slots for group 0 allowed in room 0, free fields at rows 0, 2 and 3 of room 0: nothing is placed | advance one entry, placing the lecture at rows 2-3 | not executed | LecturePhase.ScanSkipsAsWritten | LecturePhase.ScanComplete |
| scheduler_improved.py:49 | the batch test reads the stored room index as a truth value, so a reservation of room 0 is not seen | reserve classroom 0 for a (year, batch) over a range, then ask `is_room_free` for the same year, batch and range: it answers free | test whether the slot is present in the batch's map | not executed | ResourceManager.RoomZeroReservationUnseen | ResourceManager.ReserveBlocksBatch |
| scheduler_improved.py:198-199 | the per-day counters are `defaultdict(lambda: defaultdict(int))` but indexed once with a (subject, group, day) tuple, so `>= 1` (lines 223, 228) and `+= 1` (lines 276, 279) meet an inner dictionary and raise a TypeError | two one-hour lectures of group 0, or two one-hour labs of one subject for group 0: the TypeError comes at class 0 on Monday, before anything is placed, and the matrix is never filled | flat `defaultdict(int)` counters | not executed | ImprovedScheduler.CountersRaiseAsWritten | ImprovedScheduler.ImprovedInitialPopulation |
| scheduler_improved.py:226-229 | with the day counters corrected, the lab day cap's `continue` only continues the loop over groups, so the day is never skipped | two one-hour labs of subject A for group 0 and one lab room: both are placed on Monday, at slots 0 and 1 | skip the day once the subject has a lab that day for a group of the class | not executed | ImprovedScheduler.LabDayCapIgnoredAsWritten | ImprovedScheduler.LabDayCapKeptCorrected |
| scheduler_improved.py:250 | with the day counters corrected, reservations are filed under the year `"Year"` while every lookup asks for `"Unknown"` (lines 144-150), so the batch test never sees a reservation | two one-hour lectures of different subjects for group 0 and one classroom: both are placed on Monday at 09:15 | reserve under the year the lookups use; since the only reservation here is of classroom 0, the room-index test of line 49 must be corrected too, and the corrected member corrects both | not executed | ImprovedScheduler.YearMismatchDoubleBooks | ImprovedScheduler.ImprovedInitialPopulation |
